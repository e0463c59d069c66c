/**
 libjson's parser: two mutually recursive loops over a shared token index,
 guarded by lookahead checks, proved equal to functions on the tokens left.
 */
module JsonParser {
  import opened JsonLexer
  import opened JsonValue

  datatype Parsed<+T> = Done(value: T, rest: seq<Token>) | Fails

  predicate IsScalar(t: Token) {
    t.Str? || t.Num? || t.Float? || t.True? || t.False? || t.Null?
  }

  predicate IsCloser(t: Token) { t.ObjectEnd? || t.ArrayEnd? }

  predicate EndsValue(t: Token) { IsCloser(t) || t.Comma? }

  predicate StartsValue(t: Token) { IsScalar(t) || t.ObjectBegin? || t.ArrayBegin? }

  /** `handle_after_object_array_closure_exception` passes. */
  predicate ClosureOk(rest: seq<Token>) { rest == [] || EndsValue(rest[0]) }

  /** `handle_after_object_array_exception` passes after `open`. */
  predicate OpenOk(open: Token, rest: seq<Token>) {
    rest == [] || (!rest[0].Comma? && !rest[0].Colon?
                   && !(open.ObjectBegin? && rest[0].ArrayEnd?)
                   && !(open.ArrayBegin? && rest[0].ObjectEnd?))
  }

  /** `handle_after_separators_exception` passes. */
  predicate SeparatorOk(rest: seq<Token>) { rest == [] || !(EndsValue(rest[0]) || rest[0].Colon?) }

  /** `handle_missing_separator_exception` passes for `t`. */
  predicate ScalarEndOk(t: Token, rest: seq<Token>) {
    IsScalar(t) ==> rest != [] && EndsValue(rest[0])
  }

  /** All that the begin/end check leaves for the loops to rely on: the last token closes something. */
  predicate EndsClosed(rest: seq<Token>) { rest == [] || IsCloser(rest[|rest| - 1]) }

  predicate Follows<T>(r: Parsed<T>, rest: seq<Token>) {
    r.Done? ==> |r.rest| <= |rest| && EndsClosed(r.rest)
  }

  /** The node for a scalar token; any other token gives the null pointer. */
  function ScalarValue(t: Token, escape: bool): Json {
    match t
    case Str(s) => JString(JsonString(s, escape))
    case Num(n) => JInt(n)
    case Float(d) => JFloat(d)
    case True => JBool(true)
    case False => JBool(false)
    case Null => JNull
    case _ => Missing
  }

  /** The value that starts at token `t`, with `rest` after it. */
  function ParseValue(t: Token, rest: seq<Token>, escape: bool): (r: Parsed<Json>)
    requires EndsClosed([t] + rest)
    ensures Follows(r, rest)
    decreases |rest|, 1
  {
    assert rest != [] ==> ([t] + rest)[|rest|] == rest[|rest| - 1];
    if !ScalarEndOk(t, rest) then Fails
    else if t.ObjectBegin? then
      if !OpenOk(t, rest) then Fails
      else
        match ParseMembers(rest, escape)
        case Fails => Fails
        case Done(ms, r) => Done(JObject(ms), r)
    else if t.ArrayBegin? then
      if !OpenOk(t, rest) then Fails
      else
        match ParseElements(rest, escape)
        case Fails => Fails
        case Done(es, r) => Done(JArray(es), r)
    else Done(ScalarValue(t, escape), rest)
  }

  /** What `parseJsonArray` reads; it may stop at the end of the list without a `]`. */
  function ParseElements(rest: seq<Token>, escape: bool): (r: Parsed<seq<Json>>)
    requires EndsClosed(rest)
    ensures Follows(r, rest)
    decreases |rest|, 0
  {
    if rest == [] then Done([], [])
    else
      var t, after := rest[0], rest[1..];
      if t.ArrayEnd? then
        if ClosureOk(after) then Done([], after) else Fails
      else if t.Comma? then
        if SeparatorOk(after) then ParseElements(after, escape) else Fails
      else
        assert rest == [t] + after;
        match ParseValue(t, after, escape)
        case Fails => Fails
        case Done(v, r) => Cons(v, ParseElements(r, escape))
  }

  function Cons<T>(head: T, tail: Parsed<seq<T>>): Parsed<seq<T>> {
    match tail
    case Fails => Fails
    case Done(ts, r) => Done([head] + ts, r)
  }

  /**
   One `key : value`, from the token `key` on. The accesses past the key and past
   the colon are unguarded in the code; they are in range because the last token
   is a closer, and neither a key nor a colon is one.
   */
  function ParseMember(key: Token, after: seq<Token>, escape: bool): (r: Parsed<Member>)
    requires EndsClosed([key] + after)
    ensures Follows(r, after)
    decreases |after|, 2
  {
    assert after != [] ==> ([key] + after)[|after|] == after[|after| - 1];
    if !key.Str? then Fails
    else if !after[0].Colon? then Fails
    else if !StartsValue(after[1]) then Fails
    else
      assert after[1..] == [after[1]] + after[2..];
      match ParseValue(after[1], after[2..], escape)
      case Fails => Fails
      case Done(v, r) => Done(Member(JsonString(key.lexeme, escape), v), r)
  }

  /** What `parseJsonObject` reads. */
  function ParseMembers(rest: seq<Token>, escape: bool): (r: Parsed<seq<Member>>)
    requires EndsClosed(rest)
    ensures Follows(r, rest)
    decreases |rest|, 0
  {
    if rest == [] then Done([], [])
    else
      var key, after := rest[0], rest[1..];
      if key.ObjectEnd? then
        if ClosureOk(after) then Done([], after) else Fails
      else if key.Comma? then
        if SeparatorOk(after) then ParseMembers(after, escape) else Fails
      else
        assert rest == [key] + after;
        match ParseMember(key, after, escape)
        case Fails => Fails
        case Done(m, r) => Cons(m, ParseMembers(r, escape))
  }

  datatype Document =
    | Empty
    | Object(members: seq<Member>)
    | Array(elements: seq<Json>)
    | Scalar(token: Token)
    | SyntaxFault

  /** `handle_begin_end_mismatch_exception` passes. */
  predicate BeginEndOk(tokens: seq<Token>)
    requires tokens != []
  {
    var last := tokens[|tokens| - 1];
    (tokens[0].ObjectBegin? ==> last.ObjectEnd?) && (tokens[0].ArrayBegin? ==> last.ArrayEnd?)
  }

  /** `JsonParser::parse`. Tokens after the root container are not looked at. */
  function Parse(tokens: seq<Token>, escape: bool): Document {
    if tokens == [] then Empty
    else if !BeginEndOk(tokens) then SyntaxFault
    else
      var t, rest := tokens[0], tokens[1..];
      if t.ObjectBegin? || t.ArrayBegin? then
        if !OpenOk(t, rest) then SyntaxFault
        else if t.ObjectBegin? then
          match ParseMembers(rest, escape)
          case Fails => SyntaxFault
          case Done(ms, _) => Object(ms)
        else
          match ParseElements(rest, escape)
          case Fails => SyntaxFault
          case Done(es, _) => Array(es)
      else if |tokens| == 1 && IsScalar(t) then Scalar(t)
      else SyntaxFault
  }

  function Extended<T>(p: seq<T>, r: Parsed<seq<T>>): Parsed<seq<T>> {
    match r
    case Fails => Fails
    case Done(ts, rest) => Done(p + ts, rest)
  }

  lemma ExtendedCons<T>(p: seq<T>, x: T, r: Parsed<seq<T>>)
    ensures Extended(p, Cons(x, r)) == Extended(p + [x], r)
  {
    if r.Done? {
      assert p + ([x] + r.value) == p + [x] + r.value;
    }
  }

  lemma ExtendedNothing<T>(r: Parsed<seq<T>>)
    ensures Extended([], r) == r
  {
    if r.Done? {
      assert [] + r.value == r.value;
    }
  }

  lemma StopsAtTheEnd(es: seq<Json>, ms: seq<Member>, escape: bool)
    ensures Extended(es, ParseElements([], escape)) == Done(es, [])
    ensures Extended(ms, ParseMembers([], escape)) == Done(ms, [])
  {
    assert es + [] == es;
    assert ms + [] == ms;
  }

  /** One turn of the array loop, with `before` added so far and `rest` left. */
  lemma ElementsTurn(before: seq<Json>, rest: seq<Token>, escape: bool)
    requires rest != [] && EndsClosed(rest)
    ensures EndsClosed(rest[1..]) && EndsClosed([rest[0]] + rest[1..])
    ensures var t, after := rest[0], rest[1..];
            Extended(before, ParseElements(rest, escape)) ==
            if t.ArrayEnd? then (if ClosureOk(after) then Done(before, after) else Fails)
            else if t.Comma? then
              (if SeparatorOk(after) then Extended(before, ParseElements(after, escape)) else Fails)
            else
              var p := ParseValue(t, after, escape);
              if p.Fails? then Fails else Extended(before + [p.value], ParseElements(p.rest, escape))
  {
    hide ParseValue;
    var t, after := rest[0], rest[1..];
    assert rest == [t] + after;
    assert before + [] == before;
    if !t.ArrayEnd? && !t.Comma? && ParseValue(t, after, escape).Done? {
      var p := ParseValue(t, after, escape);
      ExtendedCons(before, p.value, ParseElements(p.rest, escape));
    }
  }

  /** One turn of the object loop. */
  lemma MembersTurn(before: seq<Member>, rest: seq<Token>, escape: bool)
    requires rest != [] && EndsClosed(rest)
    ensures EndsClosed(rest[1..]) && EndsClosed([rest[0]] + rest[1..])
    ensures var key, after := rest[0], rest[1..];
            Extended(before, ParseMembers(rest, escape)) ==
            if key.ObjectEnd? then (if ClosureOk(after) then Done(before, after) else Fails)
            else if key.Comma? then
              (if SeparatorOk(after) then Extended(before, ParseMembers(after, escape)) else Fails)
            else
              var p := ParseMember(key, after, escape);
              if p.Fails? then Fails else Extended(before + [p.value], ParseMembers(p.rest, escape))
  {
    hide ParseMember;
    var key, after := rest[0], rest[1..];
    assert rest == [key] + after;
    assert before + [] == before;
    if !key.ObjectEnd? && !key.Comma? && ParseMember(key, after, escape).Done? {
      var p := ParseMember(key, after, escape);
      ExtendedCons(before, p.value, ParseMembers(p.rest, escape));
    }
  }

  /** The token index over the list that the lexer left behind. */
  class JsonParser {
    const tokens: seq<Token>
    const escape: bool
    var tokenIndex: nat

    constructor (tokens: seq<Token>, escape: bool)
      ensures this.tokens == tokens && this.escape == escape && tokenIndex == 0
    {
      this.tokens := tokens;
      this.escape := escape;
      tokenIndex := 0;
    }

    /** The tokens from the index on. */
    ghost function Rest(): seq<Token>
      reads this
    {
      if tokenIndex <= |tokens| then tokens[tokenIndex..] else []
    }

    ghost predicate Valid()
      reads this
    {
      tokenIndex <= |tokens| && EndsClosed(tokens)
    }

    // The lookahead checks, on the index as the code writes them. True means: no exception.

    predicate AfterClosure()
      reads this
      requires Valid()
      ensures AfterClosure() <==> ClosureOk(Rest())
    {
      tokenIndex < |tokens| ==> EndsValue(tokens[tokenIndex])
    }

    predicate AfterOpen(open: Token)
      reads this
      requires Valid()
      ensures AfterOpen(open) <==> OpenOk(open, Rest())
    {
      tokenIndex < |tokens| ==>
        var next := tokens[tokenIndex];
        && !next.Comma? && !next.Colon?
        && !(open.ObjectBegin? && next.ArrayEnd?) && !(open.ArrayBegin? && next.ObjectEnd?)
    }

    predicate AfterSeparator()
      reads this
      requires Valid()
      ensures AfterSeparator() <==> SeparatorOk(Rest())
    {
      tokenIndex < |tokens| ==> !EndsValue(tokens[tokenIndex]) && !tokens[tokenIndex].Colon?
    }

    predicate AfterScalar(t: Token)
      reads this
      requires Valid()
      ensures AfterScalar(t) <==> ScalarEndOk(t, Rest())
    {
      IsScalar(t) ==> tokenIndex < |tokens| && EndsValue(tokens[tokenIndex])
    }

    /** The `switch` on a value's token, which both loops contain. */
    method ParseJsonValue(t: Token) returns (ok: bool, v: Json)
      requires Valid() && 0 < tokenIndex && tokens[tokenIndex - 1] == t
      requires EndsClosed([t] + Rest())
      modifies this`tokenIndex
      ensures Valid() && tokenIndex >= old(tokenIndex)
      ensures ParseValue(t, old(Rest()), escape) == if ok then Done(v, Rest()) else Fails
      decreases |tokens| - tokenIndex, 1
    {
      v := Missing;
      if !AfterScalar(t) {
        return false, v;
      }
      if t.ObjectBegin? {
        if !AfterOpen(t) {
          return false, v;
        }
        var members;
        ok, members := ParseJsonObject();
        v := JObject(members);
      } else if t.ArrayBegin? {
        if !AfterOpen(t) {
          return false, v;
        }
        var elements;
        ok, elements := ParseJsonArray();
        v := JArray(elements);
      } else {
        ok, v := true, ScalarValue(t, escape);
      }
    }

    /** The rest of a turn of the object loop, once `key` is neither a closer nor a comma. */
    method ParseJsonMember(key: Token) returns (ok: bool, m: Member)
      requires Valid() && 0 < tokenIndex && tokens[tokenIndex - 1] == key
      requires EndsClosed([key] + Rest())
      modifies this`tokenIndex
      ensures Valid() && tokenIndex >= old(tokenIndex)
      ensures ParseMember(key, old(Rest()), escape) == if ok then Done(m, Rest()) else Fails
      decreases |tokens| - tokenIndex, 2
    {
      hide ParseValue;
      ghost var after := Rest();
      m := Member(JsonString("", escape), Missing);
      if !key.Str? {
        return false, m;
      }
      if !tokens[tokenIndex].Colon? {
        return false, m;
      }
      tokenIndex := tokenIndex + 1;
      if !StartsValue(tokens[tokenIndex]) {
        return false, m;
      }
      var value := tokens[tokenIndex];
      tokenIndex := tokenIndex + 1;
      assert Rest() == after[2..];
      assert [value] + Rest() == tokens[tokenIndex - 1..];
      var v;
      ok, v := ParseJsonValue(value);
      m := Member(JsonString(key.lexeme, escape), v);
    }

    method ParseJsonArray() returns (ok: bool, elements: seq<Json>)
      requires Valid()
      modifies this`tokenIndex
      ensures Valid() && tokenIndex >= old(tokenIndex)
      ensures ParseElements(old(Rest()), escape) == if ok then Done(elements, Rest()) else Fails
      decreases |tokens| - tokenIndex, 0
    {
      hide ParseValue;
      hide ParseElements;
      elements := [];
      ghost var all := ParseElements(Rest(), escape);
      ExtendedNothing(all);
      while tokenIndex < |tokens|
        invariant Valid() && tokenIndex >= old(tokenIndex)
        invariant all == Extended(elements, ParseElements(Rest(), escape))
        decreases |tokens| - tokenIndex
      {
        ElementsTurn(elements, Rest(), escape);
        var value := tokens[tokenIndex];
        assert Rest()[1..] == tokens[tokenIndex + 1..];
        tokenIndex := tokenIndex + 1;
        if value.ArrayEnd? {
          return AfterClosure(), elements;
        }
        if value.Comma? {
          if !AfterSeparator() {
            return false, elements;
          }
          continue;
        }
        var v;
        ok, v := ParseJsonValue(value);
        if !ok {
          return;
        }
        elements := elements + [v];
      }
      ok := true;
      StopsAtTheEnd(elements, [], escape);
    }

    method ParseJsonObject() returns (ok: bool, members: seq<Member>)
      requires Valid()
      modifies this`tokenIndex
      ensures Valid() && tokenIndex >= old(tokenIndex)
      ensures ParseMembers(old(Rest()), escape) == if ok then Done(members, Rest()) else Fails
      decreases |tokens| - tokenIndex, 0
    {
      hide ParseMember;
      hide ParseMembers;
      hide AfterClosure;
      hide AfterSeparator;
      hide ClosureOk;
      hide SeparatorOk;
      members := [];
      ghost var all := ParseMembers(Rest(), escape);
      ExtendedNothing(all);
      while tokenIndex < |tokens|
        invariant Valid() && tokenIndex >= old(tokenIndex)
        invariant all == Extended(members, ParseMembers(Rest(), escape))
        decreases |tokens| - tokenIndex
      {
        MembersTurn(members, Rest(), escape);
        var key := tokens[tokenIndex];
        assert Rest()[1..] == tokens[tokenIndex + 1..];
        tokenIndex := tokenIndex + 1;
        if key.ObjectEnd? {
          return AfterClosure(), members;
        }
        if key.Comma? {
          if !AfterSeparator() {
            return false, members;
          }
          continue;
        }
        var m;
        ok, m := ParseJsonMember(key);
        if !ok {
          return;
        }
        members := members + [m];
      }
      ok := true;
      StopsAtTheEnd([], members, escape);
    }

    /** `parse`, from the first token. No token access needs a well-formed list. */
    method ParseDocument() returns (d: Document)
      requires tokenIndex == 0
      modifies this`tokenIndex
      ensures d == Parse(tokens, escape)
    {
      if tokens == [] {
        return Empty;
      }
      if !BeginEndOk(tokens) {
        return SyntaxFault;
      }
      var token := tokens[0];
      tokenIndex := tokenIndex + 1;
      if token.ObjectBegin? || token.ArrayBegin? {
        if !AfterOpen(token) {
          return SyntaxFault;
        }
        if token.ObjectBegin? {
          var ok, members := ParseJsonObject();
          d := if ok then Object(members) else SyntaxFault;
        } else {
          var ok, elements := ParseJsonArray();
          d := if ok then Array(elements) else SyntaxFault;
        }
      } else {
        d := if |tokens| == 1 && IsScalar(token) then Scalar(token) else SyntaxFault;
      }
    }
  }
}
