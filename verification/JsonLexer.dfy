/**
 libjson's hand-written lexer: a cursor with push-back (`JsonReader`) and the
 token loop (`JsonLexer`), proved equal to a function on the text that is left.
 */
module JsonLexer {
  import opened Common
  import opened JsonUtil

  /** Floats keep their lexeme: the conversion to double is the library's. */
  datatype Token =
    | Str(lexeme: string)
    | Num(value: int)
    | Float(digits: string)
    | True
    | False
    | Null
    | ObjectBegin
    | ObjectEnd
    | ArrayBegin
    | ArrayEnd
    | Colon
    | Comma

  /** The outcome of one call of `analysis` on the text that is left. */
  datatype Step =
    | Emit(token: Token, rest: string)
    | Nothing(rest: string)
    | Bad
    | Forever

  /** The outcome of the whole token loop. */
  datatype Tokens = Good(tokens: seq<Token>) | SyntaxError | Endless

  datatype Scan = Found(lexeme: string, rest: string) | BadEscape | Unclosed

  function Grown(p: string, scan: Scan): Scan {
    match scan
    case Found(s, rest) => Found(p + s, rest)
    case _ => scan
  }

  /** The body of a string literal, after the opening quote. */
  function ScanString(rest: string): (r: Scan)
    ensures r.Found? ==> |r.rest| < |rest|
    decreases |rest|
  {
    if rest == [] then Unclosed
    else if rest[0] == '\"' then Found([], rest[1..])
    else if rest[0] == '\\' then
      if |rest| == 1 || !IsValidNextEscape(rest[1]) then BadEscape
      else Grown(rest[..2], ScanString(rest[2..]))
    else Grown(rest[..1], ScanString(rest[1..]))
  }

  /** The text after a `//` comment; a byte equal to EOF ends the comment too. */
  function AfterLineComment(rest: string): (r: string)
    ensures |r| <= |rest|
  {
    if rest == [] then []
    else if rest[0] == EOF || IsNewline(rest[0]) then rest[1..]
    else AfterLineComment(rest[1..])
  }

  /** The text after a block comment, None when it is never closed. */
  function AfterBlockComment(rest: string): (r: Option<string>)
    ensures r.Some? ==> |r.value| < |rest|
  {
    if rest == [] then None
    else if |rest| >= 2 && rest[0] == '*' && rest[1] == '/' then Some(rest[2..])
    else AfterBlockComment(rest[1..])
  }

  function DigitRun(s: string): (n: nat)
    ensures n <= |s|
    ensures forall i :: 0 <= i < n ==> IsNumber(s[i])
    ensures n < |s| ==> !IsNumber(s[n])
  {
    if s == [] || !IsNumber(s[0]) then 0 else 1 + DigitRun(s[1..])
  }

  predicate IsFloatPart(c: char) { IsNumber(c) || IsExponent(c) || c == '+' || c == '-' }

  function FloatRun(s: string): (n: nat)
    ensures n <= |s|
    ensures forall i :: 0 <= i < n ==> IsFloatPart(s[i])
    ensures n < |s| ==> !IsFloatPart(s[n])
  {
    if s == [] || !IsFloatPart(s[0]) then 0 else 1 + FloatRun(s[1..])
  }

  function DigitsValue(s: string): nat
    requires forall i :: 0 <= i < |s| ==> IsNumber(s[i])
  {
    if s == [] then 0
    else
      var last := s[|s| - 1];
      assert IsNumber(last);
      DigitsValue(s[..|s| - 1]) * 10 + (last as int - '0' as int)
  }

  const INT_MIN := -0x8000_0000
  const INT_MAX := 0x7FFF_FFFF

  /**
   `static_cast<int>(toAny<double>(s))` for an optional sign and digits. A sign
   alone reads as 0. Out of range the cast is undefined in C++; the value here
   is the one x86-64 gives.
   */
  function IntegerValue(s: string): int
    requires s != [] && (IsNumber(s[0]) || s[0] == '-' || s[0] == '+')
    requires forall i :: 1 <= i < |s| ==> IsNumber(s[i])
  {
    var v: int := if s[0] == '-' then 0 - DigitsValue(s[1..])
             else if s[0] == '+' then DigitsValue(s[1..])
             else DigitsValue(s);
    if INT_MIN <= v <= INT_MAX then v else INT_MIN
  }

  /** What the reader returns at `i`. */
  function CharAt(s: string, i: nat): char {
    if i < |s| then s[i] else EOF
  }

  /** A float whose text up to the point or exponent is `rest[..n]`. */
  function FractionStep(rest: string, n: nat): (r: Step)
    requires 0 < n <= |rest|
    ensures r.Emit? ==> |r.rest| < |rest|
    ensures !r.Nothing? && !r.Forever?
  {
    var m := n + FloatRun(rest[n..]);
    if rest[m - 1] == '.' || IsExponent(rest[m - 1]) then Bad
    else Emit(Float(rest[..m]), rest[m..])
  }

  /** A number whose first character is `rest[0]`. */
  function NumberStep(rest: string): (r: Step)
    requires rest != [] && (IsNumber(rest[0]) || rest[0] == '-' || rest[0] == '+')
    ensures r.Emit? ==> |r.rest| < |rest|
    ensures !r.Nothing? && !r.Forever?
  {
    if rest[0] == '0' && IsNumber(CharAt(rest, 1)) then Bad
    else
      var n := 1 + DigitRun(rest[1..]);
      var next := CharAt(rest, n);
      if next == '.' || IsExponent(next) then FractionStep(rest, n + 1)
      else
        assert forall i :: 1 <= i < n ==> rest[..n][i] == rest[1..][i - 1];
        Emit(Num(IntegerValue(rest[..n])), rest[n..])
  }

  /** One of the three literal names. */
  function WordStep(word: string, token: Token, rest: string): (r: Step)
    requires word != []
    ensures r.Emit? ==> |r.rest| < |rest|
    ensures !r.Nothing? && !r.Forever?
  {
    if word <= rest then Emit(token, rest[|word|..]) else Bad
  }

  function CommentStep(rest: string): (r: Step)
    ensures r.Nothing? ==> |r.rest| <= |rest|
    ensures !r.Emit?
  {
    if CharAt(rest, 0) == '/' then Nothing(AfterLineComment(rest[1..]))
    else if CharAt(rest, 0) == '*' then
      match AfterBlockComment(rest[1..])
      case Some(r) => Nothing(r)
      case None => Forever
    else Bad
  }

  function StringStep(rest: string, mode: Mode): (r: Step)
    ensures r.Emit? ==> |r.rest| < |rest|
    ensures !r.Nothing?
  {
    match ScanString(rest)
    case Unclosed => Forever
    case BadEscape => Bad
    case Found(raw, r) =>
      if !mode.escape then Emit(Str(raw), r)
      else
        match Escape(raw, mode)
        case Err => Bad
        case Ok(s) => Emit(Str(s), r)
  }

  predicate IsPunctuation(c: char) { c in ":,{[}]" }

  function Punctuation(c: char): Token
    requires IsPunctuation(c)
  {
    match c
    case ':' => Colon
    case ',' => Comma
    case '{' => ObjectBegin
    case '[' => ArrayBegin
    case '}' => ObjectEnd
    case _ => ArrayEnd
  }

  /** The `switch` of `analysis` on a character that is not white space. */
  function TokenStep(rest: string, mode: Mode): (r: Step)
    requires rest != []
    ensures r.Emit? || r.Nothing? ==> |r.rest| < |rest|
  {
    var c := rest[0];
    if c == '\"' then StringStep(rest[1..], mode)
    else if c == '/' then CommentStep(rest[1..])
    else if c == 't' then WordStep("true", True, rest)
    else if c == 'f' then WordStep("false", False, rest)
    else if c == 'n' then WordStep("null", Null, rest)
    else if IsPunctuation(c) then Emit(Punctuation(c), rest[1..])
    else if IsNumber(c) || c == '-' || c == '+' then NumberStep(rest)
    else Nothing(rest[1..])
  }

  function SkipWhite(rest: string): (r: string)
    ensures |r| <= |rest|
    ensures r != [] ==> !IsSpace(r[0]) && !IsNewline(r[0])
  {
    if rest == [] || !(IsSpace(rest[0]) || IsNewline(rest[0])) then rest else SkipWhite(rest[1..])
  }

  /** One call of `analysis`: at most one token. Unknown characters are dropped. */
  function Analysis(rest: string, mode: Mode): (r: Step)
    ensures r.Emit? || r.Nothing? ==> |r.rest| < |rest| || rest == r.rest == []
    ensures r.Emit? ==> |r.rest| < |rest|
  {
    var s := SkipWhite(rest);
    if s == [] then Nothing([]) else TokenStep(s, mode)
  }

  function Joined(p: seq<Token>, r: Tokens): Tokens {
    match r
    case Good(ts) => Good(p + ts)
    case _ => r
  }

  /** The token loop on the text that is left. */
  function Lex(rest: string, mode: Mode): Tokens
    decreases |rest|
  {
    if rest == [] then Good([])
    else
      match Analysis(rest, mode)
      case Emit(t, r) => Joined([t], Lex(r, mode))
      case Nothing(r) => Lex(r, mode)
      case Bad => SyntaxError
      case Forever => Endless
  }

  /** The cursor over the text. `ptr` is the index of the character read last. */
  class JsonReader {
    const sbuffer: string
    var ptr: int

    constructor (text: string)
      ensures sbuffer == text && ptr == -1 && Valid() && Rest() == text
    {
      sbuffer := text;
      ptr := -1;
    }

    ghost predicate Valid()
      reads this
    {
      -1 <= ptr
    }

    /** The text not yet read. */
    ghost function Rest(): string
      reads this
      requires Valid()
    {
      if ptr < |sbuffer| then sbuffer[ptr + 1..] else []
    }

    predicate Eof()
      reads this
    {
      ptr > |sbuffer| - 1
    }

    method Get() returns (c: char)
      requires Valid()
      modifies this
      ensures Valid() && ptr == old(ptr) + 1
      ensures c == CharAt(old(Rest()), 0)
      ensures Rest() == Drop(old(Rest()), 1)
      ensures Eof() <==> old(Rest()) == []
    {
      ptr := ptr + 1;
      c := if ptr >= |sbuffer| then EOF else sbuffer[ptr];
    }

    function Peek(): (c: char)
      reads this
      requires Valid()
      ensures c == CharAt(Rest(), 0)
    {
      if ptr + 1 >= |sbuffer| then EOF else sbuffer[ptr + 1]
    }

    /** Pushes the character read last back; past the end there is none. */
    method Back()
      requires Valid() && 0 <= ptr
      modifies this
      ensures Valid() && ptr == old(ptr) - 1
      ensures Rest() == if old(ptr) < |sbuffer| then sbuffer[old(ptr)..] else []
    {
      ptr := ptr - 1;
    }

    method Gets(count: nat) returns (s: string)
      requires Valid()
      modifies this
      ensures Valid() && ptr == old(ptr) + count && |s| == count
      ensures forall i :: 0 <= i < count ==> s[i] == CharAt(old(Rest()), i)
      ensures Rest() == Drop(old(Rest()), count)
    {
      s := "";
      for i := 0 to count
        invariant Valid() && ptr == old(ptr) + i && |s| == i
        invariant forall k :: 0 <= k < i ==> s[k] == CharAt(old(Rest()), k)
        invariant Rest() == Drop(old(Rest()), i)
      {
        var c := Get();
        s := s + [c];
      }
    }
  }

  /** `escape`, the reader and the list of tokens found so far. */
  class JsonLexer {
    const reader: JsonReader
    const mode: Mode
    var tokens: seq<Token>

    constructor (text: string, mode: Mode)
      ensures Valid() && reader.Rest() == text && this.mode == mode && tokens == []
      ensures fresh(reader) && reader.ptr == -1
    {
      this.mode := mode;
      tokens := [];
      reader := new JsonReader(text);
    }

    ghost predicate Valid()
      reads this, reader
    {
      reader.Valid()
    }

    /** Skips white space; returns the first character after it, which has been read. */
    method SkipWhitespace() returns (c: char)
      requires Valid() && !reader.Eof()
      modifies reader
      ensures Valid() && reader.ptr > old(reader.ptr)
      ensures var s := SkipWhite(old(reader.Rest())); c == CharAt(s, 0) && reader.Rest() == Drop(s, 1)
      ensures reader.Eof() <==> SkipWhite(old(reader.Rest())) == []
      ensures !reader.Eof() ==> 0 <= reader.ptr && reader.sbuffer[reader.ptr..] == SkipWhite(old(reader.Rest()))
    {
      ghost var all := reader.Rest();
      c := EOF;
      while !reader.Eof()
        invariant Valid() && reader.ptr >= old(reader.ptr)
        invariant !reader.Eof() && SkipWhite(reader.Rest()) == SkipWhite(all)
        decreases |reader.sbuffer| - reader.ptr
      {
        ghost var r := reader.Rest();
        c := reader.Get();
        if !IsSpace(c) && !IsNewline(c) {
          assert SkipWhite(all) == SkipWhite(r) == r;
          break;
        }
        assert SkipWhite(r) == SkipWhite(r[1..]);
      }
    }

    /**
     The string case, after the opening quote has been read. Without a closing
     quote the loop never ends, so a caller must know that there is one or that
     a bad escape comes first.
     */
    method LexString() returns (r: Result<string>)
      requires Valid() && ScanString(reader.Rest()) != Unclosed
      modifies reader
      ensures Valid() && reader.ptr > old(reader.ptr)
      ensures match ScanString(old(reader.Rest()))
              case Found(raw, rest) => r == Ok(raw) && reader.Rest() == rest
              case _ => r == Err
    {
      hide ScanString;
      hide Grown;
      ghost var all := reader.Rest();
      var s := "";
      ghost var here := all;
      GrownNothing(ScanString(all));
      var c := reader.Get();
      while c != '\"'
        invariant Valid() && reader.ptr > old(reader.ptr)
        invariant c == CharAt(here, 0) && reader.Rest() == Drop(here, 1)
        invariant ScanString(all) == Grown(s, ScanString(here))
        decreases |here|
      {
        ghost var before := s;
        ghost var from := here;
        StringScans(here, s);
        s := s + [c];
        here := reader.Rest();
        if c == '\\' {
          c := reader.Get();
          if !IsValidNextEscape(c) {
            return Err;
          }
          s := s + [c];
          here := reader.Rest();
          assert s == before + from[..2];
        } else {
          assert s == before + from[..1];
        }
        c := reader.Get();
      }
      StringEnds(here, s);
      r := Ok(s);
    }

    /** `// ...` up to a newline, the end of the text or a byte equal to EOF. */
    method SkipLineComment()
      requires Valid()
      modifies reader
      ensures Valid() && reader.ptr > old(reader.ptr)
      ensures reader.Rest() == AfterLineComment(old(reader.Rest()))
    {
      ghost var here := reader.Rest();
      var c := reader.Get();
      while c != EOF && !IsNewline(c)
        invariant Valid() && reader.ptr > old(reader.ptr)
        invariant c == CharAt(here, 0) && reader.Rest() == Drop(here, 1)
        invariant AfterLineComment(here) == AfterLineComment(old(reader.Rest()))
        decreases |here|
      {
        here := reader.Rest();
        c := reader.Get();
      }
    }

    /** A block comment; one that is never closed would never end the loop. */
    method SkipBlockComment()
      requires Valid() && AfterBlockComment(reader.Rest()).Some?
      modifies reader
      ensures Valid() && reader.ptr > old(reader.ptr)
      ensures Some(reader.Rest()) == AfterBlockComment(old(reader.Rest()))
    {
      ghost var here := reader.Rest();
      var c := reader.Get();
      while !(c == '*' && reader.Peek() == '/')
        invariant Valid() && reader.ptr > old(reader.ptr)
        invariant c == CharAt(here, 0) && reader.Rest() == Drop(here, 1)
        invariant AfterBlockComment(here) == AfterBlockComment(old(reader.Rest()))
        decreases |here|
      {
        here := reader.Rest();
        c := reader.Get();
      }
      var _ := reader.Get();
    }

    /** The digits that follow, and the character after them, which has been read too. */
    method ReadDigits() returns (s: string, d: char)
      requires Valid()
      modifies reader
      ensures Valid()
      ensures var all := old(reader.Rest()); var n := DigitRun(all);
              s == all[..n] && d == CharAt(all, n) && reader.ptr == old(reader.ptr) + n + 1
    {
      ghost var all := reader.Rest();
      s := "";
      d := reader.Get();
      while IsNumber(d)
        invariant Valid() && |s| <= DigitRun(all) && s == all[..|s|]
        invariant d == CharAt(all, |s|) && reader.Rest() == Drop(all, |s| + 1)
        invariant reader.ptr == old(reader.ptr) + |s| + 1
        decreases DigitRun(all) - |s|
      {
        s := s + [d];
        d := reader.Get();
      }
    }

    /** As `ReadDigits`, for the tail of a float. */
    method ReadFloatParts() returns (s: string)
      requires Valid()
      modifies reader
      ensures Valid()
      ensures var all := old(reader.Rest()); var n := FloatRun(all);
              s == all[..n] && reader.ptr == old(reader.ptr) + n + 1
    {
      ghost var all := reader.Rest();
      s := "";
      var d := reader.Get();
      while IsFloatPart(d)
        invariant Valid() && |s| <= FloatRun(all) && s == all[..|s|]
        invariant d == CharAt(all, |s|) && reader.Rest() == Drop(all, |s| + 1)
        invariant reader.ptr == old(reader.ptr) + |s| + 1
        decreases FloatRun(all) - |s|
      {
        s := s + [d];
        d := reader.Get();
      }
    }

    /** Goes on with a float: `s` is the text from `start` up to the point or exponent just read. */
    method LexFraction(s: string, ghost start: nat) returns (r: Result<Token>)
      requires Valid() && start + |s| == reader.ptr + 1 <= |reader.sbuffer| && s != []
      requires s == reader.sbuffer[start..start + |s|]
      modifies reader
      ensures Valid() && reader.ptr >= start
      ensures match FractionStep(reader.sbuffer[start..], |s|)
              case Emit(t, rest) => r == Ok(t) && reader.Rest() == rest
              case _ => r == Err
    {
      hide FloatRun;
      ghost var from := reader.sbuffer[start..];
      assert reader.Rest() == from[|s|..] && s == from[..|s|];
      var parts := ReadFloatParts();
      var whole := s + parts;
      FrontGrows(from, |s|, |parts|);
      var last := whole[|whole| - 1];
      if last == '.' || IsExponent(last) {
        return Err;
      }
      reader.Back();
      assert reader.Rest() == from[|whole|..];
      r := Ok(Float(whole));
    }

    /** The number case; `c`, its first character, has been read. */
    method LexNumber(c: char) returns (r: Result<Token>)
      requires Valid() && 0 <= reader.ptr < |reader.sbuffer| && c == reader.sbuffer[reader.ptr]
      requires IsNumber(c) || c == '-' || c == '+'
      modifies reader
      ensures Valid() && reader.ptr >= old(reader.ptr)
      ensures match NumberStep(reader.sbuffer[old(reader.ptr)..])
              case Emit(t, rest) => r == Ok(t) && reader.Rest() == rest
              case _ => r == Err
    {
      hide IntegerValue;
      hide FractionStep;
      hide DigitRun;
      ghost var start := reader.ptr;
      ghost var from := reader.sbuffer[start..];
      assert reader.Rest() == from[1..];
      if c == '0' && IsNumber(reader.Peek()) {
        return Err;
      }
      var s, d := ReadDigits();
      s := [c] + s;
      ghost var n := |s|;
      assert n == 1 + DigitRun(from[1..]) && d == CharAt(from, n) && s == from[..n];
      if d == '.' || IsExponent(d) {
        s := s + [d];
        assert |s| == n + 1 && s == from[..n + 1] == reader.sbuffer[start..start + n + 1];
        r := LexFraction(s, start);
      } else {
        reader.Back();
        assert reader.Rest() == from[n..];
        r := Ok(Num(IntegerValue(s)));
      }
    }

    /** The three literal names; `c`, the first character, has been read. */
    method LexWord(word: string, token: Token) returns (r: Result<Token>)
      requires Valid() && word != [] && 0 <= reader.ptr < |reader.sbuffer|
      requires reader.sbuffer[reader.ptr] == word[0] && EOF !in word
      modifies reader
      ensures Valid() && reader.ptr >= old(reader.ptr)
      ensures match WordStep(word, token, reader.sbuffer[old(reader.ptr)..])
              case Emit(t, rest) => r == Ok(t) && reader.Rest() == rest
              case _ => r == Err
    {
      ghost var from := reader.sbuffer[reader.ptr..];
      var s := reader.Gets(|word| - 1);
      s := [word[0]] + s;
      assert forall i :: 0 <= i < |word| ==> s[i] == CharAt(from, i);
      if |from| < |word| {
        assert s[|from|] == EOF;
      }
      if s == word {
        assert word == from[..|word|];
        r := Ok(token);
      } else {
        r := Err;
      }
    }

    /** One call of `analysis`: reads on and appends at most one token. */
    method Analyse() returns (ok: bool)
      requires Valid() && !reader.Eof()
      requires Analysis(reader.Rest(), mode) != Forever
      modifies this, reader
      ensures Valid() && reader.ptr > old(reader.ptr)
      ensures match Analysis(old(reader.Rest()), mode)
              case Emit(t, rest) => ok && tokens == old(tokens) + [t] && reader.Rest() == rest
              case Nothing(rest) => ok && tokens == old(tokens) && reader.Rest() == rest
              case _ => !ok
    {
      ghost var s := SkipWhite(reader.Rest());
      var c := SkipWhitespace();
      var word := Err;
      if c == '\"' {
        var raw := LexString();
        if raw.Ok? && mode.escape {
          raw := EscapeString(raw.value, mode);
        }
        word := if raw.Ok? then Ok(Str(raw.value)) else Err;
      } else if c == '/' {
        var d := reader.Get();
        if d == '/' {
          SkipLineComment();
        } else if d == '*' {
          SkipBlockComment();
        } else {
          return false;
        }
        return true;
      } else if c == 't' {
        word := LexWord("true", True);
      } else if c == 'f' {
        word := LexWord("false", False);
      } else if c == 'n' {
        word := LexWord("null", Null);
      } else if IsPunctuation(c) {
        word := Ok(Punctuation(c));
      } else if IsNumber(c) || c == '-' || c == '+' {
        word := LexNumber(c);
      } else {
        return true;
      }
      if word.Err? {
        return false;
      }
      tokens := tokens + [word.value];
      ok := true;
    }

    /** `JsonParser::getTokens`: the token loop. It ends unless the text is `Endless`. */
    method GetTokens() returns (ok: bool)
      requires Valid() && tokens == [] && reader.ptr == -1
      requires Lex(reader.Rest(), mode) != Endless
      modifies this, reader
      ensures if ok then Lex(old(reader.Rest()), mode) == Good(tokens)
              else Lex(old(reader.Rest()), mode) == SyntaxError
    {
      ghost var text := reader.Rest();
      JoinedNothing(Lex(text, mode));
      while !reader.Eof()
        invariant Valid()
        invariant Lex(text, mode) == Joined(tokens, Lex(reader.Rest(), mode))
        decreases |reader.sbuffer| - reader.ptr
      {
        ghost var rest, before := reader.Rest(), tokens;
        LexUnfold(rest, mode);
        ok := Analyse();
        if !ok {
          return;
        }
        if Analysis(rest, mode).Emit? {
          JoinedTwice(before, [Analysis(rest, mode).token], Lex(reader.Rest(), mode));
        }
      }
      ok := true;
      assert tokens + [] == tokens;
    }
  }

  lemma FrontGrows(from: string, m: nat, n: nat)
    requires m + n <= |from|
    ensures from[..m] + from[m..][..n] == from[..m + n]
  {
  }

  /** One turn of the string loop, behind `s`. */
  lemma StringScans(here: string, s: string)
    requires CharAt(here, 0) != '\"' && Grown(s, ScanString(here)) != Unclosed
    ensures here != []
    ensures here[0] != '\\' ==> Grown(s, ScanString(here)) == Grown(s + here[..1], ScanString(here[1..]))
    ensures here[0] == '\\' && !IsValidNextEscape(CharAt(here, 1)) ==> Grown(s, ScanString(here)) == BadEscape
    ensures here[0] == '\\' && IsValidNextEscape(CharAt(here, 1)) ==>
              |here| >= 2 && Grown(s, ScanString(here)) == Grown(s + here[..2], ScanString(here[2..]))
  {
    assert !IsValidNextEscape(EOF);
    hide IsValidNextEscape;
    assert Grown(s, Unclosed) == Unclosed && Grown(s, BadEscape) == BadEscape;
    ScanUnfolds(here);
    hide ScanString;
    hide Grown;
    if here[0] != '\\' {
      GrownTwice(s, here[..1], ScanString(here[1..]));
    } else if |here| >= 2 {
      GrownTwice(s, here[..2], ScanString(here[2..]));
    }
  }

  lemma ScanUnfolds(here: string)
    requires CharAt(here, 0) != '\"' && ScanString(here) != Unclosed
    ensures here != []
    ensures here[0] != '\\' ==> ScanString(here) == Grown(here[..1], ScanString(here[1..]))
    ensures here[0] == '\\' && |here| >= 2 && IsValidNextEscape(here[1]) ==>
              ScanString(here) == Grown(here[..2], ScanString(here[2..]))
    ensures here[0] == '\\' && (|here| == 1 || !IsValidNextEscape(here[1])) ==> ScanString(here) == BadEscape
  {
    hide Grown;
    hide IsValidNextEscape;
  }

  lemma StringEnds(here: string, s: string)
    requires CharAt(here, 0) == '\"' && here != []
    ensures Grown(s, ScanString(here)) == Found(s, here[1..])
  {
    assert s + [] == s;
  }

  lemma LexUnfold(rest: string, mode: Mode)
    ensures match Analysis(rest, mode)
            case Emit(t, r) => Lex(rest, mode) == Joined([t], Lex(r, mode))
            case Nothing(r) => Lex(rest, mode) == Lex(r, mode)
            case Bad => Lex(rest, mode) == SyntaxError
            case Forever => Lex(rest, mode) == Endless
  {
  }

  lemma JoinedNothing(r: Tokens)
    ensures Joined([], r) == r
  {
  }

  lemma JoinedTwice(p: seq<Token>, q: seq<Token>, r: Tokens)
    ensures Joined(p, Joined(q, r)) == Joined(p + q, r)
  {
  }

  lemma GrownNothing(scan: Scan)
    ensures Grown("", scan) == scan
  {
  }

  lemma GrownTwice(p: string, q: string, scan: Scan)
    ensures Grown(p, Grown(q, scan)) == Grown(p + q, scan)
  {
  }

  // ---- when the loops of `analysis` end ----

  /** One turn of the string loop at `here`; None when the loop is left. */
  function StringTurn(here: string): Option<string> {
    if CharAt(here, 0) == '\"' then None
    else if CharAt(here, 0) == '\\' then
      if IsValidNextEscape(CharAt(here, 1)) then Some(Drop(here, 2)) else None
    else Some(Drop(here, 1))
  }

  /** One turn of the block comment loop. */
  function CommentTurn(here: string): Option<string> {
    if CharAt(here, 0) == '*' && CharAt(here, 1) == '/' then None else Some(Drop(here, 1))
  }

  /** The loop is still running after `n` turns. */
  predicate Runs(turn: string -> Option<string>, here: string, n: nat)
    decreases n
  {
    n == 0 || (turn(here).Some? && Runs(turn, turn(here).value, n - 1))
  }

  /** The string loop runs forever exactly when the literal is not closed. */
  lemma StringLoopRunsForever(here: string)
    ensures ScanString(here) == Unclosed <==> forall n: nat :: Runs(StringTurn, here, n)
  {
    if ScanString(here) == Unclosed {
      forall n: nat
        ensures Runs(StringTurn, here, n)
      {
        UnclosedRuns(here, n);
      }
    } else {
      ClosedStops(here, |here|);
    }
  }

  lemma UnclosedTurn(here: string)
    requires ScanString(here) == Unclosed
    ensures StringTurn(here).Some? && ScanString(StringTurn(here).value) == Unclosed
  {
  }

  lemma {:induction false} UnclosedRuns(here: string, n: nat)
    requires ScanString(here) == Unclosed
    ensures Runs(StringTurn, here, n)
    decreases n
  {
    if n > 0 {
      UnclosedTurn(here);
      hide ScanString;
      hide StringTurn;
      UnclosedRuns(StringTurn(here).value, n - 1);
    }
  }

  lemma {:induction false} ClosedStops(here: string, n: nat)
    requires ScanString(here) != Unclosed && n >= |here|
    ensures !Runs(StringTurn, here, n)
    decreases n
  {
    if StringTurn(here).Some? {
      ClosedStops(StringTurn(here).value, n - 1);
    }
  }

  /** The block comment loop runs forever exactly when the comment is not closed. */
  lemma CommentLoopRunsForever(here: string)
    ensures AfterBlockComment(here) == None <==> forall n: nat :: Runs(CommentTurn, here, n)
  {
    if AfterBlockComment(here) == None {
      forall n: nat
        ensures Runs(CommentTurn, here, n)
      {
        OpenCommentRuns(here, n);
      }
    } else {
      ClosedCommentStops(here, |here|);
    }
  }

  lemma {:induction false} OpenCommentRuns(here: string, n: nat)
    requires AfterBlockComment(here) == None
    ensures Runs(CommentTurn, here, n)
    decreases n
  {
    if n > 0 {
      OpenCommentRuns(CommentTurn(here).value, n - 1);
    }
  }

  lemma {:induction false} ClosedCommentStops(here: string, n: nat)
    requires AfterBlockComment(here).Some? && n >= |here|
    ensures !Runs(CommentTurn, here, n)
    decreases n
  {
    if CommentTurn(here).Some? {
      ClosedCommentStops(CommentTurn(here).value, n - 1);
    }
  }
}
