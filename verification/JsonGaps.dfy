/** What the lexer reads over: blanks, comments, and characters that begin no token. */
module JsonGaps {
  import opened Common
  import opened JsonUtil
  import opened JsonLexer
  import JsonRoundTrip

  /** The characters a token or a comment can begin with. */
  const STARTS := "\"/tfn:,{[}]0123456789-+"

  datatype Gap =
    | Character(c: char)
    | Line(text: string, end: char)
    | Block(text: string)

  predicate Contains(s: string, p: string) {
    exists i :: 0 <= i <= |s| && p <= s[i..]
  }

  function GapText(g: Gap): string {
    match g
    case Character(c) => [c]
    case Line(text, end) => "//" + text + [end]
    case Block(text) => "/*" + text + "*/"
  }

  /** A line comment ends at a newline, or at a byte 0xFF, which the reader takes for the end of the text. */
  predicate GapOk(g: Gap) {
    match g
    case Character(c) => c !in STARTS
    case Line(text, end) => '\n' !in text && '\U{FF}' !in text && (end == '\n' || end == '\U{FF}')
    case Block(text) => !Contains(text, "*/")
  }

  function GapsText(gaps: seq<Gap>): string {
    if gaps == [] then "" else GapText(gaps[0]) + GapsText(gaps[1..])
  }

  /** In front of any text, whatever is only read over changes nothing. */
  lemma {:induction false} GapsChangeNothing(gaps: seq<Gap>, tail: string, mode: Mode)
    requires forall i :: 0 <= i < |gaps| ==> GapOk(gaps[i])
    ensures Lex(GapsText(gaps) + tail, mode) == Lex(tail, mode)
  {
    hide Lex;
    if gaps == [] {
      assert GapsText(gaps) + tail == tail;
    } else {
      GapsChangeNothing(gaps[1..], tail, mode);
      var more := GapsText(gaps[1..]) + tail;
      assert GapsText(gaps) + tail == GapText(gaps[0]) + more;
      match gaps[0]
      case Character(c) => CharacterIsDropped(c, more, mode);
      case Line(text, end) => LineCommentIsDropped(text, end, more, mode);
      case Block(text) => BlockCommentIsDropped(text, more, mode);
    }
  }

  lemma StartsAre(c: char)
    requires c !in STARTS
    ensures c != '\"' && c != '/' && c != 't' && c != 'f' && c != 'n' && c != '-' && c != '+'
    ensures !IsPunctuation(c) && !IsNumber(c)
  {
    assert forall i :: 0 <= i < |STARTS| ==> STARTS[i] != c;
    assert STARTS[0] == '\"' && STARTS[1] == '/' && STARTS[2] == 't' && STARTS[3] == 'f' && STARTS[4] == 'n';
    assert STARTS[5] == ':' && STARTS[6] == ',' && STARTS[7] == '{' && STARTS[8] == '[' && STARTS[9] == '}';
    assert STARTS[10] == ']' && STARTS[21] == '-' && STARTS[22] == '+';
    assert STARTS[11] == '0' && STARTS[12] == '1' && STARTS[13] == '2' && STARTS[14] == '3' && STARTS[15] == '4';
    assert STARTS[16] == '5' && STARTS[17] == '6' && STARTS[18] == '7' && STARTS[19] == '8' && STARTS[20] == '9';
  }

  lemma CharacterIsDropped(c: char, tail: string, mode: Mode)
    requires c !in STARTS
    ensures Lex([c] + tail, mode) == Lex(tail, mode)
  {
    var rest := [c] + tail;
    assert rest[1..] == tail;
    StartsAre(c);
    if JsonRoundTrip.IsWhite(c) {
      JsonRoundTrip.LexWhiteOne(rest, mode);
    } else {
      assert TokenStep(rest, mode) == Nothing(tail);
      NothingStep(rest, tail, mode);
    }
  }

  lemma NothingStep(rest: string, tail: string, mode: Mode)
    requires rest != [] && !JsonRoundTrip.IsWhite(rest[0]) && TokenStep(rest, mode) == Nothing(tail)
    ensures Lex(rest, mode) == Lex(tail, mode)
  {
    hide TokenStep;
  }

  lemma CommentStart(rest: string, mode: Mode)
    requires |rest| >= 1 && rest[0] == '/'
    ensures TokenStep(rest, mode) == CommentStep(rest[1..]) && !JsonRoundTrip.IsWhite(rest[0])
  {
  }

  lemma LineCommentIsDropped(text: string, end: char, tail: string, mode: Mode)
    requires GapOk(Line(text, end))
    ensures Lex("//" + text + [end] + tail, mode) == Lex(tail, mode)
  {
    var rest := "//" + text + [end] + tail;
    hide Lex;
    CommentStart(rest, mode);
    hide TokenStep;
    LineEnds(text, end, tail);
    assert rest[1..][0] == '/' && rest[1..][1..] == text + [end] + tail;
    NothingStep(rest, tail, mode);
  }

  lemma {:induction false} LineEnds(text: string, end: char, tail: string)
    requires GapOk(Line(text, end))
    ensures AfterLineComment(text + [end] + tail) == tail
  {
    var all := text + [end] + tail;
    if text == "" {
      assert all[0] == end && all[1..] == tail;
    } else {
      assert all[0] == text[0] && text[0] in text && all[1..] == text[1..] + [end] + tail;
      LineEnds(text[1..], end, tail);
    }
  }

  /** A line comment may also end with the text. */
  lemma {:induction false} LastLineIsDropped(text: string, mode: Mode)
    requires '\n' !in text && '\U{FF}' !in text
    ensures Lex("//" + text, mode) == Good([])
  {
    var rest := "//" + text;
    CommentStart(rest, mode);
    hide TokenStep;
    LineStops(text);
    assert rest[1..][0] == '/' && rest[1..][1..] == text;
    NothingStep(rest, [], mode);
  }

  lemma {:induction false} LineStops(text: string)
    requires '\n' !in text && '\U{FF}' !in text
    ensures AfterLineComment(text) == []
  {
    if text != "" {
      assert text[0] in text;
      LineStops(text[1..]);
    }
  }

  lemma BlockCommentIsDropped(text: string, tail: string, mode: Mode)
    requires !Contains(text, "*/")
    ensures Lex("/*" + text + "*/" + tail, mode) == Lex(tail, mode)
  {
    var rest := "/*" + text + "*/" + tail;
    hide Lex;
    CommentStart(rest, mode);
    hide TokenStep;
    BlockEnds(text, tail);
    assert rest[1..][0] == '*' && rest[1..][1..] == text + "*/" + tail;
    NothingStep(rest, tail, mode);
  }

  lemma ContainsLonger(s: string, p: string)
    requires s != [] && Contains(s[1..], p)
    ensures Contains(s, p)
  {
    var i :| 0 <= i <= |s[1..]| && p <= s[1..][i..];
    assert s[i + 1..] == s[1..][i..];
  }

  lemma {:induction false} BlockEnds(text: string, tail: string)
    requires !Contains(text, "*/")
    ensures AfterBlockComment(text + "*/" + tail) == Some(tail)
  {
    var all := text + "*/" + tail;
    if text == "" {
      assert all[0] == '*' && all[1] == '/' && all[2..] == tail;
    } else {
      assert all[1..] == text[1..] + "*/" + tail && all[0] == text[0];
      assert all[1] == if |text| == 1 then '*' else text[1];
      if Contains(text[1..], "*/") {
        ContainsLonger(text, "*/");
      }
      assert text[0..] == text;
      BlockEnds(text[1..], tail);
    }
  }

  /** Without its closer, a block comment sends the lexer into an endless loop. */
  lemma OpenBlockNeverEnds(text: string, mode: Mode)
    requires !Contains(text, "*/")
    ensures Lex("/*" + text, mode) == Endless
  {
    var rest := "/*" + text;
    CommentStart(rest, mode);
    hide TokenStep;
    BlockRuns(text);
    assert rest[1..][0] == '*' && rest[1..][1..] == text;
  }

  lemma {:induction false} BlockRuns(text: string)
    requires !Contains(text, "*/")
    ensures AfterBlockComment(text) == None
  {
    if text != "" {
      if Contains(text[1..], "*/") {
        ContainsLonger(text, "*/");
      }
      assert text[0..] == text;
      BlockRuns(text[1..]);
    }
  }
}
