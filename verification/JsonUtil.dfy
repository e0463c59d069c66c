/**
 Character classes and string escaping of libjson.

 A `char` stands for one byte of the C++ `char`; `EOF` is the byte 0xFF, which
 is what the int EOF (-1) becomes when the reader returns it as a `char`.
 */
module JsonUtil {
  import opened Common

  const EOF := '\U{FF}'
  const BACKSPACE := '\U{08}'
  const VTAB := '\U{0B}'
  const FORMFEED := '\U{0C}'

  /**
   `escape` is the lexer's flag. `unicode` and `hex` stand for the two library
   conversions behind `\uXXXX` and `\x..`; nothing is assumed about them.
   `unicode` returns None where the library throws.
   */
  datatype Mode = Mode(escape: bool, unicode: string -> Option<string>, hex: string -> string)

  predicate IsNumber(c: char) { '0' <= c <= '9' }

  predicate IsHex(c: char) { '0' <= c <= '9' || 'a' <= c <= 'f' || 'A' <= c <= 'F' }

  predicate IsExponent(c: char) { c == 'e' || c == 'E' }

  predicate IsSpace(c: char) { c == ' ' || c == '\t' || c == VTAB }

  predicate IsNewline(c: char) { c == '\n' }

  predicate IsValidNextEscape(c: char) {
    || c == 't' || c == 'n' || c == '0' || c == 'b' || c == 'f'
    || c == 'x' || c == 'u' || c == 'r' || c == '\"' || c == '\\'
  }

  function UnescapeCharacter(c: char): string {
    match c
    case '\n' => "\\n"
    case '\0' => "\\0"
    case '\t' => "\\t"
    case '\"' => "\\\""
    case '\U{08}' => "\\b"
    case '\U{0C}' => "\\f"
    case '\r' => "\\r"
    case '\\' => "\\\\"
    case _ => [c]
  }

  function EscapeCharacter(c: char): char {
    match c
    case 'n' => '\n'
    case '0' => '\0'
    case 't' => '\t'
    case 'b' => BACKSPACE
    case 'f' => FORMFEED
    case 'r' => '\r'
    case _ => c
  }

  /** `s[i]` of a std::string, whose one-past-the-end read is '\0'. */
  function At(s: string, i: nat): char {
    if i < |s| then s[i] else '\0'
  }

  function HexRun(s: string): (n: nat)
    ensures n <= |s|
    ensures forall i :: 0 <= i < n ==> IsHex(s[i])
    ensures n < |s| ==> !IsHex(s[n])
  {
    if s == [] || !IsHex(s[0]) then 0 else 1 + HexRun(s[1..])
  }

  function Prefixed(p: string, r: Result<string>): Result<string> {
    match r
    case Ok(s) => Ok(p + s)
    case Err => Err
  }

  /**
   The piece of output for the front of a non-empty `s`, and how many characters
   of `s` it stands for.
   */
  function FirstPiece(s: string, mode: Mode): Result<(string, nat)>
    requires s != []
    ensures FirstPiece(s, mode).Ok? ==> FirstPiece(s, mode).value.1 > 0
  {
    if s[0] != '\\' then Ok(([s[0]], 1))
    else if At(s, 1) == 'u' then
      if |s| < 6 || HexRun(s[2..6]) < 4 then Err
      else
        var text := mode.unicode(s[2..6]);
        if text.None? then Err else Ok((text.value, 6))
    else if At(s, 1) == 'x' then
      var n := HexRun(s[2..]);
      if n == 0 then Err else Ok((mode.hex(s[2..2 + n]), 2 + n))
    else
      Ok(([EscapeCharacter(At(s, 1))], 2))
  }

  /** What `escape_string` computes, read from the front of the string. */
  function Escape(s: string, mode: Mode): Result<string>
    decreases |s|
  {
    if s == [] then Ok([])
    else
      match FirstPiece(s, mode)
      case Err => Err
      case Ok((piece, n)) => Prefixed(piece, Escape(Drop(s, n), mode))
  }

  /** What `unescape_string` computes. */
  function Unescape(s: string): string {
    if s == [] then [] else UnescapeCharacter(s[0]) + Unescape(s[1..])
  }

  lemma PrefixedNothing(r: Result<string>)
    ensures Prefixed("", r) == r
  {
    if r.Ok? {
      assert "" + r.value == r.value;
    }
  }

  lemma PrefixedTwice(p: string, q: string, r: Result<string>)
    ensures Prefixed(p, Prefixed(q, r)) == Prefixed(p + q, r)
  {
    if r.Ok? {
      assert p + (q + r.value) == p + q + r.value;
    }
  }

  /** The `\u` branch: `i` is the index of the 'u'; on success the loop continues at `next`. */
  method EscapeUnicode(s: string, i: nat, mode: Mode) returns (piece: Result<string>, next: nat)
    requires i < |s|
    ensures piece.Err? <==> || |s| < i + 5 || HexRun(s[i + 1..i + 5]) < 4
                            || mode.unicode(s[i + 1..i + 5]).None?
    ensures piece.Ok? ==> next == i + 5 && mode.unicode(s[i + 1..i + 5]) == Some(piece.value)
  {
    var hexuni := "";
    next := i + 1;
    var c := At(s, next);
    var j := 0;
    while j < 4
      invariant 0 <= j <= 4 && next == i + 1 + j <= |s| && c == At(s, next)
      invariant hexuni == s[i + 1..next]
      invariant forall k :: 0 <= k < j ==> IsHex(hexuni[k])
    {
      if !IsHex(c) {
        if |s| >= i + 5 {
          assert s[i + 1..i + 5][j] == c;
        }
        return Err, next;
      }
      hexuni := hexuni + [c];
      j := j + 1;
      next := next + 1;
      c := At(s, next);
    }
    var text := mode.unicode(hexuni);
    piece := if text.Some? then Ok(text.value) else Err;
  }

  /** The `\x` branch: `i` is the index of the 'x'. */
  method EscapeHex(s: string, i: nat, mode: Mode) returns (piece: Result<string>, next: nat)
    requires i < |s|
    ensures next == i + 1 + HexRun(s[i + 1..])
    ensures piece == if next == i + 1 then Err else Ok(mode.hex(s[i + 1..next]))
  {
    var hexs := "";
    next := i + 1;
    var c := At(s, next);
    ghost var run := s[i + 1..];
    while IsHex(c)
      invariant i + 1 <= next <= i + 1 + HexRun(run) && c == At(s, next)
      invariant hexs == s[i + 1..next]
      decreases i + 1 + HexRun(run) - next
    {
      assert c == run[next - i - 1];
      hexs := hexs + [c];
      next := next + 1;
      c := At(s, next);
    }
    piece := if hexs == "" then Err else Ok(mode.hex(hexs));
  }

  /** One turn of the loop of `escape_string`, at index `i`. */
  method NextPiece(s: string, i: nat, mode: Mode) returns (piece: Result<string>, next: nat)
    requires i < |s|
    ensures FirstPiece(s[i..], mode) == if piece.Err? then Err else Ok((piece.value, next - i))
    ensures piece.Ok? ==> i < next
  {
    var c := s[i];
    piece, next := Ok([c]), i + 1;
    if c == '\\' {
      if At(s, i + 1) == 'u' {
        piece, next := EscapeUnicode(s, i + 1, mode);
      } else if At(s, i + 1) == 'x' {
        piece, next := EscapeHex(s, i + 1, mode);
      } else {
        piece, next := Ok([EscapeCharacter(At(s, i + 1))]), i + 2;
      }
    }
    FirstPieceFrom(s, i, mode);
  }

  /** The index loop of `escape_string`. */
  method EscapeString(s: string, mode: Mode) returns (r: Result<string>)
    ensures r == Escape(s, mode)
  {
    hide Escape;
    hide FirstPiece;
    hide EscapedUpTo;
    var escaped := "";
    var i := 0;
    EscapedNone(s, mode);
    while i < |s|
      invariant EscapedUpTo(s, i, escaped, mode)
      decreases |s| - i
    {
      var piece, next := NextPiece(s, i, mode);
      EscapedOneMore(s, i, escaped, mode);
      if piece.Err? {
        return Err;
      }
      escaped := escaped + piece.value;
      i := next;
    }
    EscapedAll(s, i, escaped, mode);
    r := Ok(escaped);
  }

  ghost predicate EscapedUpTo(s: string, i: nat, escaped: string, mode: Mode) {
    Escape(s, mode) == Prefixed(escaped, Escape(Drop(s, i), mode))
  }

  lemma EscapedNone(s: string, mode: Mode)
    ensures EscapedUpTo(s, 0, "", mode)
  {
    PrefixedNothing(Escape(s, mode));
  }

  lemma EscapedAll(s: string, i: nat, escaped: string, mode: Mode)
    requires i >= |s| && EscapedUpTo(s, i, escaped, mode)
    ensures Escape(s, mode) == Ok(escaped)
  {
    assert escaped + [] == escaped;
  }

  lemma EscapedOneMore(s: string, i: nat, escaped: string, mode: Mode)
    requires i < |s| && EscapedUpTo(s, i, escaped, mode)
    ensures match FirstPiece(s[i..], mode)
            case Err => Escape(s, mode) == Err
            case Ok((piece, n)) => EscapedUpTo(s, i + n, escaped + piece, mode)
  {
    hide FirstPiece;
    match FirstPiece(s[i..], mode)
    case Err =>
    case Ok((piece, n)) =>
      assert Drop(s[i..], n) == Drop(s, i + n);
      PrefixedTwice(escaped, piece, Escape(Drop(s, i + n), mode));
  }

  /** `FirstPiece` of a suffix, read through indices into the whole string. */
  lemma FirstPieceFrom(s: string, i: nat, mode: Mode)
    requires i < |s|
    ensures FirstPiece(s[i..], mode) ==
            if s[i] != '\\' then Ok(([s[i]], 1))
            else if At(s, i + 1) == 'u' then
              if |s| < i + 6 || HexRun(s[i + 2..i + 6]) < 4 || mode.unicode(s[i + 2..i + 6]).None? then Err
              else Ok((mode.unicode(s[i + 2..i + 6]).value, 6))
            else if At(s, i + 1) == 'x' then
              var n := HexRun(s[i + 2..]);
              if n == 0 then Err else Ok((mode.hex(s[i + 2..i + 2 + n]), 2 + n))
            else Ok(([EscapeCharacter(At(s, i + 1))], 2))
  {
    var t := s[i..];
    assert At(t, 1) == At(s, i + 1);
    if s[i] == '\\' && i + 1 < |s| {
      assert t[2..] == s[i + 2..];
      if s[i + 1] == 'u' && i + 6 <= |s| {
        assert t[2..6] == s[i + 2..i + 6];
      } else if s[i + 1] == 'x' {
        var n := HexRun(s[i + 2..]);
        assert t[2..2 + n] == s[i + 2..i + 2 + n];
      }
    }
  }

  /** The index loop of `unescape_string`. */
  method UnescapeString(s: string) returns (r: string)
    ensures r == Unescape(s)
  {
    r := "";
    for i := 0 to |s|
      invariant r + Unescape(s[i..]) == Unescape(s)
    {
      assert s[i..][1..] == s[i + 1..];
      assert r + (UnescapeCharacter(s[i]) + Unescape(s[i + 1..]))
          == r + UnescapeCharacter(s[i]) + Unescape(s[i + 1..]);
      r := r + UnescapeCharacter(s[i]);
    }
  }

  /** Every character unescapes to itself or to a backslash pair that escapes back to it. */
  lemma UnescapedCharacter(c: char)
    ensures var u := UnescapeCharacter(c);
            || (u == [c] && c != '\\' && c != '\"')
            || (|u| == 2 && u[0] == '\\' && u[1] != 'u' && u[1] != 'x' && IsValidNextEscape(u[1])
                && EscapeCharacter(u[1]) == c)
  {
  }

  /** Escaping undoes unescaping, for every string whatsoever. */
  lemma {:induction false} EscapeUndoesUnescape(s: string, mode: Mode)
    ensures Escape(Unescape(s), mode) == Ok(s)
  {
    if s != [] {
      var u, rest := UnescapeCharacter(s[0]), Unescape(s[1..]);
      UnescapedCharacter(s[0]);
      EscapeUndoesUnescape(s[1..], mode);
      EscapeStep(u + rest, |u|, rest, s[0], mode);
      assert [s[0]] + s[1..] == s;
    }
  }

  lemma EscapeStep(t: string, n: nat, rest: string, c: char, mode: Mode)
    requires n <= |t| && t[n..] == rest
    requires || (n == 1 && t[0] == c && c != '\\')
             || (n == 2 && t[0] == '\\' && t[1] != 'u' && t[1] != 'x' && EscapeCharacter(t[1]) == c)
    ensures Escape(t, mode) == Prefixed([c], Escape(rest, mode))
  {
  }

  /** The text between two quotes: no bare quote, every backslash starts a valid escape. */
  predicate LexicallyClosed(s: string)
    decreases |s|
  {
    if s == [] then true
    else if s[0] == '\\' then |s| >= 2 && IsValidNextEscape(s[1]) && LexicallyClosed(s[2..])
    else s[0] != '\"' && LexicallyClosed(s[1..])
  }

  /** Unescaped text can stand between quotes. */
  lemma {:induction false} UnescapedIsClosed(s: string)
    ensures LexicallyClosed(Unescape(s))
  {
    if s != [] {
      UnescapedIsClosed(s[1..]);
      UnescapedCharacter(s[0]);
      var u, rest := UnescapeCharacter(s[0]), Unescape(s[1..]);
      assert (u + rest)[|u|..] == rest;
    }
  }

  /** Text with neither quote nor backslash stands for itself. */
  predicate Plain(s: string) { '\"' !in s && '\\' !in s }

  lemma {:induction false} PlainIsClosed(s: string, mode: Mode)
    requires Plain(s)
    ensures LexicallyClosed(s) && Escape(s, mode) == Ok(s)
  {
    if s != [] {
      PlainIsClosed(s[1..], mode);
      assert s == [s[0]] + s[1..];
    }
  }
}
