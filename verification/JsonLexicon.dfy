/** The tokens of the lexer, character by character: what each is spelled like, and what is none. */
module JsonLexicon {
  import opened Common
  import opened JsonUtil
  import opened JsonLexer
  import opened JsonValue
  import opened JsonFormatter
  import opened JsonRoundTrip

  const DIGITS := "0123456789"
  const HEXES := "0123456789abcdefABCDEF"
  const REALS := "0123456789eE+-"
  const ESCAPES := "tn0bfxur\"\\"

  predicate AllIn(s: string, set0: string) { forall i :: 0 <= i < |s| ==> s[i] in set0 }

  lemma DigitsAre(c: char)
    ensures c in DIGITS <==> IsNumber(c)
  {
    assert DIGITS[0] == '0' && DIGITS[1] == '1' && DIGITS[2] == '2' && DIGITS[3] == '3' && DIGITS[4] == '4';
    assert DIGITS[5] == '5' && DIGITS[6] == '6' && DIGITS[7] == '7' && DIGITS[8] == '8' && DIGITS[9] == '9';
  }

  lemma RealsAre(c: char)
    ensures c in REALS <==> IsFloatPart(c)
  {
    assert REALS[..10] == DIGITS && REALS == DIGITS + REALS[10..];
    assert REALS[10] == 'e' && REALS[11] == 'E' && REALS[12] == '+' && REALS[13] == '-';
    DigitsAre(c);
    assert c in REALS <==> c in DIGITS || c in REALS[10..];
  }

  lemma HexesAre(c: char)
    ensures c in HEXES <==> IsHex(c)
  {
    assert HEXES == DIGITS + HEXES[10..];
    assert HEXES[10] == 'a' && HEXES[11] == 'b' && HEXES[12] == 'c' && HEXES[13] == 'd' && HEXES[14] == 'e';
    assert HEXES[15] == 'f' && HEXES[16] == 'A' && HEXES[17] == 'B' && HEXES[18] == 'C' && HEXES[19] == 'D';
    assert HEXES[20] == 'E' && HEXES[21] == 'F';
    DigitsAre(c);
    assert c in HEXES <==> c in DIGITS || c in HEXES[10..];
  }

  lemma EscapesAre(c: char)
    ensures c in ESCAPES <==> IsValidNextEscape(c)
  {
    assert ESCAPES[0] == 't' && ESCAPES[1] == 'n' && ESCAPES[2] == '0' && ESCAPES[3] == 'b' && ESCAPES[4] == 'f';
    assert ESCAPES[5] == 'x' && ESCAPES[6] == 'u' && ESCAPES[7] == 'r' && ESCAPES[8] == '\"' && ESCAPES[9] == '\\';
  }

  // ---- numbers ----

  /** An optional sign, and digits that begin with a zero only if there is a sign or nothing more. */
  predicate Numeral(sign: string, digits: string) {
    && sign in {"", "-", "+"} && AllIn(digits, DIGITS) && sign + digits != ""
    && (sign == "" && digits[0] == '0' ==> |digits| == 1)
  }

  /** The digits' value with its sign, or the least of 32 bits where it does not fit. */
  function Cast(sign: string, digits: string): int
    requires forall i :: 0 <= i < |digits| ==> IsNumber(digits[i])
  {
    var v: int := if sign == "-" then 0 - DigitsValue(digits) else DigitsValue(digits);
    if -0x8000_0000 <= v <= 0x7FFF_FFFF then v else -0x8000_0000
  }

  lemma IntegerLexes(sign: string, digits: string, tail: string, mode: Mode)
    requires Numeral(sign, digits) && (tail == "" || tail[0] !in DIGITS + ".eE")
    ensures forall i :: 0 <= i < |digits| ==> IsNumber(digits[i])
    ensures Lex(sign + digits + tail, mode) == Joined([Num(Cast(sign, digits))], Lex(tail, mode))
  {
    hide Lex;
    var t := sign + digits;
    NumeralIs(sign, digits);
    if tail != "" {
      DigitsAre(tail[0]);
      assert ".eE"[0] == '.' && ".eE"[1] == 'e' && ".eE"[2] == 'E';
      assert tail[0] !in ".eE";
    }
    SignedStep(t, tail);
    NumberFirst(t + tail, mode);
    LexToken(t + tail, Num(IntegerValue(t)), tail, mode);
  }

  lemma NumeralIs(sign: string, digits: string)
    requires Numeral(sign, digits)
    ensures forall i :: 0 <= i < |digits| ==> IsNumber(digits[i])
    ensures var t := sign + digits;
            && t != "" && (IsNumber(t[0]) || t[0] == '-' || t[0] == '+')
            && (forall i :: 1 <= i < |t| ==> IsNumber(t[i]))
            && (t[0] == '0' ==> |t| == 1)
            && IntegerValue(t) == Cast(sign, digits)
  {
    forall i | 0 <= i < |digits|
      ensures IsNumber(digits[i])
    {
      DigitsAre(digits[i]);
    }
    var t := sign + digits;
    if sign == "" {
      assert t == digits;
    } else {
      assert t[1..] == digits && t[0] == sign[0];
      assert forall i :: 1 <= i < |t| ==> t[i] == digits[i - 1];
    }
  }

  lemma NumberFirst(rest: string, mode: Mode)
    requires rest != "" && (IsNumber(rest[0]) || rest[0] == '-' || rest[0] == '+')
    ensures TokenStep(rest, mode) == NumberStep(rest) && !IsWhite(rest[0])
  {
    hide NumberStep;
  }

  lemma SignedStep(t: string, tail: string)
    requires t != "" && (IsNumber(t[0]) || t[0] == '-' || t[0] == '+')
    requires forall i :: 1 <= i < |t| ==> IsNumber(t[i])
    requires (t[0] == '0' ==> |t| == 1) && Delimits(tail)
    ensures NumberStep(t + tail) == Emit(Num(IntegerValue(t)), tail)
  {
    hide IntegerValue;
    var all := t + tail;
    DigitRunOf(t[1..], tail);
    assert all[1..] == t[1..] + tail;
    assert all[..|t|] == t && all[|t|..] == tail;
    assert t[0] == '0' ==> CharAt(all, 1) == CharAt(tail, 0);
    assert CharAt(all, |t|) == CharAt(tail, 0);
  }

  /** A zero in front of another digit is an error, without a sign. */
  lemma LeadingZeroFails(d: char, tail: string, mode: Mode)
    requires d in DIGITS
    ensures Lex("0" + [d] + tail, mode) == SyntaxError
  {
    var rest := "0" + [d] + tail;
    DigitsAre(d);
    NumberFirst(rest, mode);
    assert rest[0] == '0' && rest[1] == d;
    BadFirst(rest, mode);
  }

  lemma BadFirst(rest: string, mode: Mode)
    requires rest != "" && !IsWhite(rest[0]) && TokenStep(rest, mode) == Bad
    ensures Lex(rest, mode) == SyntaxError
  {
    hide TokenStep;
  }

  /** A point or an exponent makes it a float, which takes all that may be part of one, and must not end in either. */
  lemma RealLexes(sign: string, digits: string, mark: char, parts: string, tail: string, mode: Mode)
    requires Numeral(sign, digits) && mark in ".eE" && AllIn(parts, REALS) && (tail == "" || tail[0] !in REALS)
    ensures var text := sign + digits + [mark] + parts;
            Lex(text + tail, mode) == if text[|text| - 1] in ".eE" then SyntaxError
                                      else Joined([Float(text)], Lex(tail, mode))
  {
    hide Lex;
    var t := sign + digits;
    var text := t + [mark] + parts;
    NumeralIs(sign, digits);
    MarksAre(mark);
    MarksAre(text[|text| - 1]);
    FloatRunOf(parts, tail);
    RealStep(t, mark, parts, tail);
    NumberFirst(text + tail, mode);
    if text[|text| - 1] in ".eE" {
      BadFirst(text + tail, mode);
    } else {
      LexToken(text + tail, Float(text), tail, mode);
    }
  }

  lemma MarksAre(c: char)
    ensures c in ".eE" <==> c == '.' || IsExponent(c)
  {
    assert ".eE"[0] == '.' && ".eE"[1] == 'e' && ".eE"[2] == 'E';
  }

  lemma RealStep(t: string, mark: char, parts: string, tail: string)
    requires t != "" && (IsNumber(t[0]) || t[0] == '-' || t[0] == '+')
    requires forall i :: 1 <= i < |t| ==> IsNumber(t[i])
    requires (t[0] == '0' ==> |t| == 1) && (mark == '.' || IsExponent(mark))
    requires FloatRun(parts + tail) == |parts|
    ensures var text := t + [mark] + parts; var last := text[|text| - 1];
            NumberStep(text + tail) == if last == '.' || IsExponent(last) then Bad else Emit(Float(text), tail)
  {
    hide NumberStep;
    hide FractionStep;
    hide FloatRun;
    RealFront(t, mark, parts + tail);
    RealBehind(t + [mark], parts, tail);
    Associates(t + [mark], parts, tail);
  }

  lemma Associates(a: string, b: string, c: string)
    ensures a + b + c == a + (b + c)
  {
  }

  /** Behind the digits the mark is met. */
  lemma RealFront(t: string, mark: char, rest: string)
    requires t != "" && (IsNumber(t[0]) || t[0] == '-' || t[0] == '+')
    requires forall i :: 1 <= i < |t| ==> IsNumber(t[i])
    requires (t[0] == '0' ==> |t| == 1) && (mark == '.' || IsExponent(mark))
    ensures NumberStep(t + [mark] + rest) == FractionStep(t + [mark] + rest, |t| + 1)
  {
    hide IntegerValue;
    hide FractionStep;
    var all := t + [mark] + rest;
    DigitRunOf(t[1..], [mark] + rest);
    assert all[1..] == t[1..] + ([mark] + rest);
    assert CharAt(all, |t|) == mark && all[0] == t[0];
    assert t[0] == '0' ==> CharAt(all, 1) == mark;
  }

  lemma RealBehind(front: string, parts: string, tail: string)
    requires front != "" && FloatRun(parts + tail) == |parts|
    ensures var text := front + parts; var last := text[|text| - 1];
            FractionStep(text + tail, |front|) ==
            if last == '.' || IsExponent(last) then Bad else Emit(Float(text), tail)
  {
    hide FloatRun;
    Slices(front, parts, tail);
  }

  lemma Slices(front: string, parts: string, tail: string)
    requires front != ""
    ensures var text := front + parts; var all := text + tail;
            && all[|front|..] == parts + tail && all[..|text|] == text && all[|text|..] == tail
            && all[|text| - 1] == text[|text| - 1]
  {
  }

  lemma {:induction false} FloatRunOf(parts: string, tail: string)
    requires AllIn(parts, REALS) && (tail == "" || tail[0] !in REALS)
    ensures FloatRun(parts + tail) == |parts|
  {
    if parts == "" {
      assert parts + tail == tail;
      if tail != "" {
        RealsAre(tail[0]);
      }
    } else {
      RealsAre(parts[0]);
      assert (parts + tail)[1..] == parts[1..] + tail;
      FloatRunOf(parts[1..], tail);
    }
  }

  // ---- names and single characters ----

  lemma NameFails(name: string, rest: string, mode: Mode)
    requires name in {"true", "false", "null"} && rest != "" && rest[0] == name[0] && !(name <= rest)
    ensures Lex(rest, mode) == SyntaxError
  {
    BadFirst(rest, mode);
  }

  lemma SlashFails(tail: string, mode: Mode)
    requires tail == "" || (tail[0] != '/' && tail[0] != '*')
    ensures Lex("/" + tail, mode) == SyntaxError
  {
    assert ("/" + tail)[1..] == tail;
    BadFirst("/" + tail, mode);
  }

  lemma PunctuationLexes(c: char, token: Token, tail: string, mode: Mode)
    requires (c, token) in {(':', Colon), (',', Comma), ('{', ObjectBegin), ('}', ObjectEnd),
                            ('[', ArrayBegin), (']', ArrayEnd)}
    ensures Lex([c] + tail, mode) == Joined([token], Lex(tail, mode))
  {
    var marks := ":,{[}]";
    assert marks[0] == ':' && marks[1] == ',' && marks[2] == '{';
    assert marks[3] == '[' && marks[4] == '}' && marks[5] == ']';
    LexPunctuation(c, tail, mode);
  }

  // ---- strings ----

  /** What can stand between two quotes. */
  predicate Body(s: string)
    decreases |s|
  {
    || s == ""
    || (s[0] == '\\' && |s| >= 2 && s[1] in ESCAPES && Body(s[2..]))
    || (s[0] != '\\' && s[0] != '\"' && Body(s[1..]))
  }

  lemma {:induction false} BodyIs(s: string)
    ensures Body(s) <==> LexicallyClosed(s)
    decreases |s|
  {
    if s != "" {
      if s[0] == '\\' {
        if |s| >= 2 {
          EscapesAre(s[1]);
          BodyIs(s[2..]);
        }
      } else {
        BodyIs(s[1..]);
      }
    }
  }

  lemma StringLexes(body: string, tail: string, mode: Mode)
    requires Body(body)
    ensures Lex("\"" + body + "\"" + tail, mode) ==
            if !mode.escape then Joined([Str(body)], Lex(tail, mode))
            else
              var s := Escape(body, mode);
              if s.Err? then SyntaxError else Joined([Str(s.value)], Lex(tail, mode))
  {
    var rest := body + "\"" + tail;
    BodyIs(body);
    ScanClosed(body, tail);
    QuotedIs(body, tail);
    QuoteStep(rest, mode);
    hide Lex;
    hide ScanString;
    hide Escape;
    hide TokenStep;
    var text := "\"" + rest;
    if mode.escape && Escape(body, mode).Err? {
      BadFirst(text, mode);
    } else {
      LexToken(text, Str(if mode.escape then Escape(body, mode).value else body), tail, mode);
    }
  }

  lemma {:induction false} ScanBehind(body: string, rest: string)
    requires Body(body)
    ensures ScanString(body + rest) == Grown(body, ScanString(rest))
    decreases |body|
  {
    if body == "" {
      assert body + rest == rest;
      GrownNothing(ScanString(rest));
    } else {
      var n := if body[0] == '\\' then 2 else 1;
      if n == 2 {
        EscapesAre(body[1]);
      }
      ScanBehind(body[n..], rest);
      CutBehind(body, rest, n);
      ScanGoes(body + rest, n);
      hide ScanString;
      GrownTwice(body[..n], body[n..], ScanString(rest));
    }
  }

  lemma CutBehind(body: string, rest: string, n: nat)
    requires n <= |body|
    ensures (body + rest)[n..] == body[n..] + rest && (body + rest)[..n] == body[..n] && body[..n] + body[n..] == body
  {
  }

  /** The scan behind one character, or behind one escape. */
  lemma ScanGoes(s: string, n: nat)
    requires 0 < n <= |s| && s[0] != '\"'
    requires if s[0] == '\\' then n == 2 && IsValidNextEscape(s[1]) else n == 1
    ensures ScanString(s) == Grown(s[..n], ScanString(s[n..]))
  {
  }

  /** A backslash in front of anything else is an error, at the end of the text too. */
  lemma BadEscapeFails(body: string, tail: string, mode: Mode)
    requires Body(body) && (tail == "" || tail[0] !in ESCAPES)
    ensures Lex("\"" + body + "\\" + tail, mode) == SyntaxError
  {
    var rest := "\\" + tail;
    if tail != "" {
      EscapesAre(tail[0]);
    }
    ScanBehind(body, rest);
    assert ScanString(rest) == BadEscape;
    QuoteStep(body + rest, mode);
    assert "\"" + body + "\\" + tail == "\"" + (body + rest);
    hide ScanString;
    hide TokenStep;
    BadFirst("\"" + (body + rest), mode);
  }

  /** Without a closing quote the lexer never ends. */
  lemma OpenStringNeverEnds(body: string, mode: Mode)
    requires Body(body)
    ensures Lex("\"" + body, mode) == Endless
  {
    ScanBehind(body, "");
    assert body + "" == body;
    QuoteStep(body, mode);
    hide ScanString;
    hide TokenStep;
  }

  // ---- escapes ----

  lemma PlainCharacter(c: char, rest: string, mode: Mode)
    requires c != '\\'
    ensures Escape([c] + rest, mode) == Prefixed([c], Escape(rest, mode))
  {
    EscapeStep([c] + rest, 1, rest, c, mode);
  }

  lemma NamedEscape(c: char, d: char, rest: string, mode: Mode)
    requires || (c, d) in {('n', '\n'), ('t', '\t'), ('r', '\r'), ('0', '\0'), ('b', '\U{08}'), ('f', '\U{0C}')}
             || (c !in "ntr0bfux" && d == c)
    ensures Escape("\\" + [c] + rest, mode) == Prefixed([d], Escape(rest, mode))
  {
    var names := "ntr0bfux";
    assert names[0] == 'n' && names[1] == 't' && names[2] == 'r' && names[3] == '0' && names[4] == 'b';
    assert names[5] == 'f' && names[6] == 'u' && names[7] == 'x';
    assert ("\\" + [c] + rest)[2..] == rest;
    EscapeStep("\\" + [c] + rest, 2, rest, d, mode);
  }

  lemma {:induction false} HexRunOf(digits: string, rest: string)
    requires AllIn(digits, HEXES) && (rest == "" || rest[0] !in HEXES)
    ensures HexRun(digits + rest) == |digits|
  {
    if digits == "" {
      assert digits + rest == rest;
      if rest != "" {
        HexesAre(rest[0]);
      }
    } else {
      HexesAre(digits[0]);
      assert (digits + rest)[1..] == digits[1..] + rest;
      HexRunOf(digits[1..], rest);
    }
  }

  /** Four hexadecimal digits of either case behind a u, and fewer are an error. */
  lemma UnicodeEscape(digits: string, rest: string, mode: Mode)
    requires |digits| == 4 && AllIn(digits, HEXES)
    ensures Escape("\\u" + digits + rest, mode) ==
            var text := mode.unicode(digits);
            if text.None? then Err else Prefixed(text.value, Escape(rest, mode))
  {
    var s := "\\u" + digits + rest;
    HexRunOf(digits, "");
    assert digits + "" == digits && s[2..6] == digits && s[6..] == rest;
  }

  lemma UnicodeFails(digits: string, rest: string, mode: Mode)
    requires |digits| < 4 && AllIn(digits, HEXES) && (rest == "" || rest[0] !in HEXES)
    ensures Escape("\\u" + digits + rest, mode) == Err
  {
    var s := "\\u" + digits + rest;
    if |s| >= 6 {
      assert s[2..6] == digits + rest[..4 - |digits|];
      HexRunOf(digits, rest[..4 - |digits|]);
    }
  }

  /** All the hexadecimal digits behind an x, and none is an error. */
  lemma HexEscape(digits: string, rest: string, mode: Mode)
    requires AllIn(digits, HEXES) && (rest == "" || rest[0] !in HEXES)
    ensures Escape("\\x" + digits + rest, mode) ==
            if digits == "" then Err else Prefixed(mode.hex(digits), Escape(rest, mode))
  {
    var s := "\\x" + digits + rest;
    assert s[2..] == digits + rest;
    HexRunOf(digits, rest);
    assert s[2..2 + |digits|] == digits && s[2 + |digits|..] == rest;
  }

  // ---- blanks ----

  /** Blanks are skipped together; any other character ends the skipping. */
  lemma {:induction false} BlanksAreSkipped(blanks: string, rest: string)
    requires AllIn(blanks, " \t\n\U{0B}") && (rest == "" || rest[0] !in " \t\n\U{0B}")
    ensures SkipWhite(blanks + rest) == rest
  {
    var all := " \t\n\U{0B}";
    assert all[0] == ' ' && all[1] == '\t' && all[2] == '\n' && all[3] == '\U{0B}';
    if blanks == "" {
      assert blanks + rest == rest;
    } else {
      assert blanks[0] in all;
      assert (blanks + rest)[1..] == blanks[1..] + rest;
      BlanksAreSkipped(blanks[1..], rest);
    }
  }

  // ---- strings as the formatter prints them ----

  /** A string read without resolving its escapes is printed, without resolving them, so that it reads the same. */
  lemma RawStringReads(s: string, indent: nat, tail: string, mode: Mode)
    requires Body(s) && !mode.escape
    ensures Lex(StringText(JsonString(s, false), Pretty(indent, false, mode)) + tail, mode)
         == Joined([Str(s)], Lex(tail, mode))
  {
    StringLexes(s, tail, mode);
  }

  /** Escapes that were not resolved by the lexer are resolved by the printer to the same text, or to its exception. */
  lemma EscapesResolveLate(s: string, indent: nat, mode: Mode)
    ensures var style := Pretty(indent, true, mode); var resolved := Escape(s, mode);
            if resolved.Err? then StringBody(JsonString(s, false), style).Err?
            else StringText(JsonString(s, false), style) == StringText(JsonString(resolved.value, true), style)
  {
  }

  /** The strings of a tree, keys included. */
  function Strings(v: Json): seq<JsonString>
    decreases v
  {
    match v
    case JString(s) => [s]
    case JArray(es) => ItemStrings(es)
    case JObject(ms) => PairStrings(ms)
    case _ => []
  }

  function ItemStrings(es: seq<Json>): seq<JsonString>
    decreases es
  {
    if es == [] then [] else Strings(es[0]) + ItemStrings(es[1..])
  }

  function PairStrings(ms: seq<Member>): seq<JsonString>
    decreases ms
  {
    if ms == [] then [] else MemberStrings(ms[0]) + PairStrings(ms[1..])
  }

  function MemberStrings(m: Member): seq<JsonString>
    decreases m
  {
    [m.key] + Strings(m.value)
  }

  /** A string whose escapes the printer is to resolve, and cannot. */
  predicate Breaks(s: JsonString, style: Style) {
    style.Pretty? && style.escape && !s.isEscaped && Escape(s.value, style.mode).Err?
  }

  /** The printer throws exactly when there is such a string in the tree. */
  lemma {:induction false} ThrowsExactly(v: Json, style: Style)
    ensures Throws(v, style) <==> exists s :: s in Strings(v) && Breaks(s, style)
    decreases v, 1
  {
    hide Escape;
    match v
    case JString(s) => assert s in Strings(v);
    case JArray(es) => ItemsThrow(es, style);
    case JObject(ms) => PairsThrow(ms, style);
    case _ =>
  }

  lemma {:induction false} ItemsThrow(es: seq<Json>, style: Style)
    ensures (exists i :: 0 <= i < |es| && Throws(es[i], style))
       <==> exists s :: s in ItemStrings(es) && Breaks(s, style)
    decreases es, 0
  {
    hide Breaks;
    hide Throws;
    if es != [] {
      ThrowsExactly(es[0], style);
      ItemsThrow(es[1..], style);
      assert forall i :: 1 <= i < |es| ==> es[i] == es[1..][i - 1];
      assert forall s :: s in ItemStrings(es) <==> s in Strings(es[0]) || s in ItemStrings(es[1..]);
      if i: nat :| i < |es[1..]| && Throws(es[1..][i], style) {
        assert Throws(es[i + 1], style);
      }
    }
  }

  lemma {:induction false} PairsThrow(ms: seq<Member>, style: Style)
    ensures (exists i :: 0 <= i < |ms| && MemberThrows(ms[i], style))
       <==> exists s :: s in PairStrings(ms) && Breaks(s, style)
    decreases ms, 0
  {
    hide Breaks;
    hide MemberThrows;
    if ms != [] {
      MemberThrowsExactly(ms[0], style);
      PairsThrow(ms[1..], style);
      assert forall i :: 1 <= i < |ms| ==> ms[i] == ms[1..][i - 1];
      assert forall s :: s in PairStrings(ms) <==> s in MemberStrings(ms[0]) || s in PairStrings(ms[1..]);
      if i: nat :| i < |ms[1..]| && MemberThrows(ms[1..][i], style) {
        assert MemberThrows(ms[i + 1], style);
      }
    }
  }

  lemma {:induction false} MemberThrowsExactly(m: Member, style: Style)
    ensures MemberThrows(m, style) <==> exists s :: s in MemberStrings(m) && Breaks(s, style)
    decreases m, 2
  {
    hide Escape;
    ThrowsExactly(m.value, style);
    assert m.key in MemberStrings(m);
    assert StringBody(m.key, style).Err? <==> Breaks(m.key, style);
  }
}
