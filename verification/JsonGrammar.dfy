/**
 Which token lists the parser accepts, exactly.

 A tree without null pointers comes out of the parser if and only if the tokens
 are the tree's own token list, followed by anything that starts with a comma or
 a closer, or the tree's own list with some closers missing at its very end.
 */
module JsonGrammar {
  import opened JsonLexer
  import opened JsonValue
  import opened JsonParser

  ghost predicate AllClosers(ts: seq<Token>) { forall i :: 0 <= i < |ts| ==> IsCloser(ts[i]) }

  /** `whole` is `rest` with some closers put back, unless something follows. */
  ghost predicate Completes(rest: seq<Token>, missing: seq<Token>, whole: seq<Token>, tail: seq<Token>) {
    && rest + missing == whole + tail
    && AllClosers(missing)
    && (missing == [] || tail == [])
    && ClosureOk(tail)
  }

  /** The tokens of a value start with a token that can start one. */
  lemma FirstToken(v: Json, escape: bool)
    requires Clean(v, escape)
    ensures TokensOf(v) != [] && StartsValue(TokensOf(v)[0])
    ensures !IsContainer(v) ==> |TokensOf(v)| == 1 && IsScalar(TokensOf(v)[0])
  {
  }

  /** Cutting `a + b` at a point at or after the end of `a`. */
  lemma CutLate(rest: seq<Token>, missing: seq<Token>, a: seq<Token>, b: seq<Token>)
    requires rest + missing == a + b && |rest| >= |a|
    ensures rest == a + rest[|a|..] && rest[|a|..] + missing == b
  {
    assert rest[..|a|] == (rest + missing)[..|a|] == a;
    assert rest[|a|..] + missing == (rest + missing)[|a|..] == b;
  }

  /** Cutting `a + b` inside `a`. */
  lemma CutEarly(rest: seq<Token>, missing: seq<Token>, a: seq<Token>, b: seq<Token>)
    requires rest + missing == a + b && |rest| <= |a|
    ensures rest + a[|rest|..] == a && missing == a[|rest|..] + b
  {
    assert rest == (rest + missing)[..|rest|] == a[..|rest|];
    assert missing == (rest + missing)[|rest|..] == a[|rest|..] + b;
  }

  // ---- every such list is accepted ----

  lemma {:induction false} AcceptValue(v: Json, rest: seq<Token>, missing: seq<Token>, tail: seq<Token>, escape: bool)
    requires Clean(v, escape) && rest != [] && EndsClosed(rest)
    requires Completes(rest, missing, TokensOf(v), tail)
    requires !IsContainer(v) ==> missing == [] && tail != []
    ensures EndsClosed([rest[0]] + rest[1..])
    ensures ParseValue(rest[0], rest[1..], escape) == Done(v, tail)
    decreases v, 2
  {
    hide ParseElements;
    hide ParseMembers;
    var inner := rest[1..];
    assert [rest[0]] + inner == rest;
    FirstToken(v, escape);
    match v
    case JArray(es) =>
      CutLate(rest, missing, [ArrayBegin], Items(es) + [ArrayEnd] + tail) by {
        assert TokensOf(v) + tail == [ArrayBegin] + (Items(es) + [ArrayEnd] + tail);
      }
      AcceptElements(es, inner, missing, tail, escape);
      FirstItem(es, inner, missing, tail, escape);
    case JObject(ms) =>
      CutLate(rest, missing, [ObjectBegin], Pairs(ms) + [ObjectEnd] + tail) by {
        assert TokensOf(v) + tail == [ObjectBegin] + (Pairs(ms) + [ObjectEnd] + tail);
      }
      AcceptMembers(ms, inner, missing, tail, escape);
      FirstPair(ms, inner, missing, tail);
    case _ =>
      assert rest == TokensOf(v) + tail;
      assert inner == tail;
  }

  lemma FirstItem(es: seq<Json>, inner: seq<Token>, missing: seq<Token>, tail: seq<Token>, escape: bool)
    requires CleanAll(es, escape) && inner + missing == Items(es) + [ArrayEnd] + tail
    ensures OpenOk(ArrayBegin, inner)
  {
    if es != [] {
      FirstToken(es[0], escape);
    }
    assert inner != [] ==> inner[0] == (inner + missing)[0];
  }

  lemma FirstPair(ms: seq<Member>, inner: seq<Token>, missing: seq<Token>, tail: seq<Token>)
    requires inner + missing == Pairs(ms) + [ObjectEnd] + tail
    ensures OpenOk(ObjectBegin, inner)
  {
    assert inner != [] ==> inner[0] == (inner + missing)[0];
  }

  lemma {:induction false} AcceptElements(es: seq<Json>, rest: seq<Token>, missing: seq<Token>,
                                          tail: seq<Token>, escape: bool)
    requires CleanAll(es, escape) && EndsClosed(rest)
    requires Completes(rest, missing, Items(es) + [ArrayEnd], tail)
    ensures ParseElements(rest, escape) == Done(es, tail)
    decreases es, 0
  {
    hide ParseValue;
    if es == [] {
      if rest != [] {
        CutLate(rest, missing, [ArrayEnd], tail);
        assert missing == [] && rest[1..] == tail;
      } else {
        assert |missing| == 1 + |tail|;
      }
    } else {
      var first, more := TokensOf(es[0]), MoreItems(es[1..]) + [ArrayEnd] + tail;
      ItemsSplit(es, tail);
      hide Items;
      hide TokensOf;
      var after, lost := CutAtFirst(es[0], rest, missing, more, escape);
      AcceptValue(es[0], rest, lost, after, escape);
      if lost == [] {
        AcceptMore(es[1..], after, missing, tail, escape);
      } else {
        NoMoreItems(es[1..], lost, missing, tail);
      }
      assert rest == [rest[0]] + rest[1..];
      assert [es[0]] + es[1..] == es;
    }
  }

  lemma ItemsSplit(es: seq<Json>, tail: seq<Token>)
    requires es != []
    ensures Items(es) + [ArrayEnd] + tail == TokensOf(es[0]) + (MoreItems(es[1..]) + [ArrayEnd] + tail)
    ensures (MoreItems(es[1..]) + [ArrayEnd] + tail)[0] == if |es| == 1 then ArrayEnd else Comma
  {
    assert MoreItems(es[1..]) == if |es| == 1 then [] else [Comma] + Items(es[1..]);
    assert Items(es) == TokensOf(es[0]) + MoreItems(es[1..]);
    hide Items;
    hide MoreItems;
    hide TokensOf;
    FourAssociate(TokensOf(es[0]), MoreItems(es[1..]), [ArrayEnd], tail);
  }

  lemma FourAssociate(a: seq<Token>, b: seq<Token>, c: seq<Token>, d: seq<Token>)
    ensures a + b + c + d == a + (b + c + d)
  {
  }

  /** Where the first value of a list ends; it is cut short only when all closers are missing. */
  lemma CutAtFirst(v: Json, rest: seq<Token>, missing: seq<Token>, more: seq<Token>, escape: bool)
    returns (after: seq<Token>, lost: seq<Token>)
    requires Clean(v, escape) && EndsClosed(rest) && AllClosers(missing)
    requires rest + missing == TokensOf(v) + more && more != [] && EndsValue(more[0])
    ensures rest != [] && Completes(rest, lost, TokensOf(v), after) && EndsClosed(after)
    ensures !IsContainer(v) ==> lost == [] && after != []
    ensures lost == [] ==> after + missing == more
    ensures lost != [] ==> after == [] && missing == lost + more
    ensures rest[0] == TokensOf(v)[0]
  {
    var first := TokensOf(v);
    FirstToken(v, escape);
    assert (rest + missing)[0] == first[0];
    if |rest| >= |first| {
      CutLate(rest, missing, first, more);
      after, lost := rest[|first|..], [];
      assert rest + [] == rest;
      assert after == [] ==> rest[|rest| - 1] == first[|first| - 1];
      assert after != [] ==> after[0] == (after + missing)[0] == more[0];
    } else {
      CutEarly(rest, missing, first, more);
      after, lost := [], first[|rest|..];
      assert first + [] == first;
      assert forall i :: 0 <= i < |lost| ==> lost[i] == missing[i];
    }
  }

  /** When even the first element is cut short, nothing can follow it. */
  lemma NoMoreItems(es: seq<Json>, lost: seq<Token>, missing: seq<Token>, tail: seq<Token>)
    requires missing == lost + (MoreItems(es) + [ArrayEnd] + tail) && AllClosers(missing)
    requires missing == [] || tail == []
    ensures es == [] && tail == []
  {
    assert missing[|lost|] == (MoreItems(es) + [ArrayEnd] + tail)[0];
  }

  lemma {:induction false} AcceptMore(es: seq<Json>, after: seq<Token>, missing: seq<Token>,
                                      tail: seq<Token>, escape: bool)
    requires CleanAll(es, escape) && EndsClosed(after)
    requires Completes(after, missing, MoreItems(es) + [ArrayEnd], tail)
    ensures ParseElements(after, escape) == Done(es, tail)
    decreases es, 1
  {
    hide ParseValue;
    if es == [] {
      AcceptElements(es, after, missing, tail, escape);
    } else {
      assert (after + missing)[0] == Comma;
      CutLate(after, missing, [Comma], Items(es) + [ArrayEnd] + tail) by {
        assert MoreItems(es) + [ArrayEnd] + tail == [Comma] + (Items(es) + [ArrayEnd] + tail);
      }
      var rest := after[1..];
      AcceptElements(es, rest, missing, tail, escape);
      FirstToken(es[0], escape);
      assert (rest + missing)[0] == TokensOf(es[0])[0];
    }
  }

  lemma {:induction false} AcceptMembers(ms: seq<Member>, rest: seq<Token>, missing: seq<Token>,
                                         tail: seq<Token>, escape: bool)
    requires CleanMembers(ms, escape) && EndsClosed(rest)
    requires Completes(rest, missing, Pairs(ms) + [ObjectEnd], tail)
    ensures ParseMembers(rest, escape) == Done(ms, tail)
    decreases ms, 0
  {
    hide ParseMember;
    if ms == [] {
      if rest != [] {
        CutLate(rest, missing, [ObjectEnd], tail);
        assert missing == [] && rest[1..] == tail;
      } else {
        assert |missing| == 1 + |tail|;
      }
    } else {
      var more := MorePairs(ms[1..]) + [ObjectEnd] + tail;
      assert Pairs(ms) + [ObjectEnd] + tail == PairTokens(ms[0]) + more;
      var after, lost := AcceptMember(ms[0], rest, missing, more, escape);
      if lost == [] {
        AcceptMorePairs(ms[1..], after, missing, tail, escape);
      } else {
        assert missing[|lost|] == more[0];
        assert ms[1..] == [];
      }
      assert rest == [rest[0]] + rest[1..];
      assert [ms[0]] + ms[1..] == ms;
    }
  }

  lemma {:induction false} AcceptMember(m: Member, rest: seq<Token>, missing: seq<Token>,
                                        more: seq<Token>, escape: bool)
    returns (after: seq<Token>, lost: seq<Token>)
    requires CleanMember(m, escape) && EndsClosed(rest) && AllClosers(missing)
    requires rest + missing == PairTokens(m) + more && more != [] && EndsValue(more[0])
    ensures rest != [] && rest[0].Str? && EndsClosed([rest[0]] + rest[1..]) && EndsClosed(after)
    ensures ParseMember(rest[0], rest[1..], escape) == Done(m, after)
    ensures lost == [] ==> after + missing == more
    ensures lost != [] ==> after == [] && missing == lost + more
    decreases m
  {
    hide ParseValue;
    var pair := PairTokens(m);
    assert (rest + missing)[0] == pair[0] && (rest + missing)[1] == pair[1];
    assert |rest| >= 2;
    CutLate(rest, missing, [pair[0], Colon], TokensOf(m.value) + more) by {
      assert pair + more == [pair[0], Colon] + (TokensOf(m.value) + more);
    }
    var inner := rest[2..];
    after, lost := CutAtFirst(m.value, inner, missing, more, escape);
    AcceptValue(m.value, inner, lost, after, escape);
    FirstToken(m.value, escape);
    MemberParts(rest);
    assert inner[0] == TokensOf(m.value)[0];
  }

  /** Key, colon and the first token of the value. */
  lemma MemberParts(rest: seq<Token>)
    requires |rest| >= 3
    ensures [rest[0]] + rest[1..] == rest
    ensures rest[1..][2..] == rest[2..][1..] && rest[1..][1] == rest[2..][0] && rest[1..][0] == rest[1]
  {
  }

  lemma {:induction false} AcceptMorePairs(ms: seq<Member>, after: seq<Token>, missing: seq<Token>,
                                           tail: seq<Token>, escape: bool)
    requires CleanMembers(ms, escape) && EndsClosed(after)
    requires Completes(after, missing, MorePairs(ms) + [ObjectEnd], tail)
    ensures ParseMembers(after, escape) == Done(ms, tail)
    decreases ms, 1
  {
    hide ParseMember;
    if ms == [] {
      AcceptMembers(ms, after, missing, tail, escape);
    } else {
      assert (after + missing)[0] == Comma;
      CutLate(after, missing, [Comma], Pairs(ms) + [ObjectEnd] + tail) by {
        assert MorePairs(ms) + [ObjectEnd] + tail == [Comma] + (Pairs(ms) + [ObjectEnd] + tail);
      }
      var rest := after[1..];
      AcceptMembers(ms, rest, missing, tail, escape);
      assert (rest + missing)[0] == PairTokens(ms[0])[0];
    }
  }

  // ---- nothing else is accepted ----

  lemma CompletesBehind(p: seq<Token>, rest: seq<Token>, missing: seq<Token>, whole: seq<Token>, tail: seq<Token>)
    requires Completes(rest, missing, whole, tail)
    ensures Completes(p + rest, missing, p + whole, tail)
  {
    assert (p + rest) + missing == p + (rest + missing);
    assert (p + whole) + tail == p + (whole + tail);
  }

  lemma CompletesThen(rest: seq<Token>, m1: seq<Token>, a: seq<Token>, middle: seq<Token>,
                      m2: seq<Token>, b: seq<Token>, tail: seq<Token>)
    requires Completes(rest, m1, a, middle) && Completes(middle, m2, b, tail)
    ensures Completes(rest, m1 + m2, a + b, tail)
  {
    assert rest + (m1 + m2) == (rest + m1) + m2 == a + (middle + m2) == (a + b) + tail;
    if m1 != [] {
      assert middle + m2 == m2;
    }
  }

  /** A value read without a null pointer comes from its own tokens, perhaps cut short. */
  lemma {:induction false} SoundValue(t: Token, rest: seq<Token>, v: Json, tail: seq<Token>, escape: bool)
    returns (missing: seq<Token>)
    requires EndsClosed([t] + rest) && Clean(v, escape)
    requires ParseValue(t, rest, escape) == Done(v, tail) && ClosureOk(tail)
    ensures Completes([t] + rest, missing, TokensOf(v), tail)
    decreases |rest|, 3
  {
    hide ParseElements;
    hide ParseMembers;
    assert rest != [] ==> ([t] + rest)[|rest|] == rest[|rest| - 1];
    if t.ArrayBegin? {
      missing := SoundItems(rest, v.elements, tail, escape);
      CompletesBehind([t], rest, missing, Items(v.elements) + [ArrayEnd], tail);
      assert TokensOf(v) == [t] + (Items(v.elements) + [ArrayEnd]);
    } else if t.ObjectBegin? {
      missing := SoundPairs(rest, v.members, tail, escape);
      CompletesBehind([t], rest, missing, Pairs(v.members) + [ObjectEnd], tail);
      assert TokensOf(v) == [t] + (Pairs(v.members) + [ObjectEnd]);
    } else {
      missing := [];
      assert TokensOf(v) == [t];
    }
  }

  /** What follows a value is a comma or a closer, or nothing. */
  lemma {:induction false} ValueTail(t: Token, rest: seq<Token>, escape: bool)
    requires EndsClosed([t] + rest) && StartsValue(t) && ParseValue(t, rest, escape).Done?
    ensures ClosureOk(ParseValue(t, rest, escape).rest)
    decreases |rest|, 1
  {
    assert rest != [] ==> ([t] + rest)[|rest|] == rest[|rest| - 1];
    if t.ArrayBegin? {
      ElementsTail(rest, escape);
    } else if t.ObjectBegin? {
      MembersTail(rest, escape);
    }
  }

  lemma {:induction false} ElementsTail(rest: seq<Token>, escape: bool)
    requires EndsClosed(rest) && ParseElements(rest, escape).Done?
    ensures ClosureOk(ParseElements(rest, escape).rest)
    decreases |rest|, 0
  {
    hide ParseValue;
    if rest != [] && !rest[0].ArrayEnd? {
      if rest[0].Comma? {
        ElementsTail(rest[1..], escape);
      } else {
        assert rest == [rest[0]] + rest[1..];
        ElementsTail(ParseValue(rest[0], rest[1..], escape).rest, escape);
      }
    }
  }

  lemma {:induction false} MembersTail(rest: seq<Token>, escape: bool)
    requires EndsClosed(rest) && ParseMembers(rest, escape).Done?
    ensures ClosureOk(ParseMembers(rest, escape).rest)
    decreases |rest|, 0
  {
    hide ParseMember;
    if rest != [] && !rest[0].ObjectEnd? {
      if rest[0].Comma? {
        MembersTail(rest[1..], escape);
      } else {
        assert rest == [rest[0]] + rest[1..];
        MembersTail(ParseMember(rest[0], rest[1..], escape).rest, escape);
      }
    }
  }

  /** Elements read where a value or the end of the array may stand. */
  lemma {:induction false} SoundItems(rest: seq<Token>, es: seq<Json>, tail: seq<Token>, escape: bool)
    returns (missing: seq<Token>)
    requires EndsClosed(rest) && OpenOk(ArrayBegin, rest) && CleanAll(es, escape)
    requires ParseElements(rest, escape) == Done(es, tail)
    ensures Completes(rest, missing, Items(es) + [ArrayEnd], tail)
    ensures rest != [] && !rest[0].ArrayEnd? ==> es != []
    decreases |rest|, 0
  {
    hide ParseValue;
    if rest == [] {
      missing := [ArrayEnd];
    } else if rest[0].ArrayEnd? {
      missing := [];
      assert rest + [] == [ArrayEnd] + rest[1..];
    } else {
      assert rest == [rest[0]] + rest[1..];
      var q := ParseValue(rest[0], rest[1..], escape);
      assert es == [q.value] + es[1..] && ParseElements(q.rest, escape) == Done(es[1..], tail);
      ValueTail(rest[0], rest[1..], escape);
      var m1 := SoundValue(rest[0], rest[1..], q.value, q.rest, escape);
      var m2 := SoundMore(q.rest, es[1..], tail, escape);
      missing := m1 + m2;
      CompletesThen(rest, m1, TokensOf(q.value), q.rest, m2, MoreItems(es[1..]) + [ArrayEnd], tail);
      assert TokensOf(q.value) + (MoreItems(es[1..]) + [ArrayEnd]) == Items(es) + [ArrayEnd];
    }
  }

  /** Elements read behind a value. */
  lemma {:induction false} SoundMore(rest: seq<Token>, es: seq<Json>, tail: seq<Token>, escape: bool)
    returns (missing: seq<Token>)
    requires EndsClosed(rest) && ClosureOk(rest) && CleanAll(es, escape)
    requires ParseElements(rest, escape) == Done(es, tail)
    ensures Completes(rest, missing, MoreItems(es) + [ArrayEnd], tail)
    decreases |rest|, 1
  {
    if rest == [] || rest[0].ArrayEnd? {
      missing := SoundItems(rest, es, tail, escape);
    } else {
      assert rest == [rest[0]] + rest[1..];
      assert rest[0].Comma?;
      missing := SoundItems(rest[1..], es, tail, escape);
      CompletesBehind([Comma], rest[1..], missing, Items(es) + [ArrayEnd], tail);
      assert [Comma] + (Items(es) + [ArrayEnd]) == MoreItems(es) + [ArrayEnd];
    }
  }

  lemma {:induction false} SoundPairs(rest: seq<Token>, ms: seq<Member>, tail: seq<Token>, escape: bool)
    returns (missing: seq<Token>)
    requires EndsClosed(rest) && OpenOk(ObjectBegin, rest) && CleanMembers(ms, escape)
    requires ParseMembers(rest, escape) == Done(ms, tail)
    ensures Completes(rest, missing, Pairs(ms) + [ObjectEnd], tail)
    ensures rest != [] && !rest[0].ObjectEnd? ==> ms != []
    decreases |rest|, 0
  {
    hide ParseMember;
    if rest == [] {
      missing := [ObjectEnd];
    } else if rest[0].ObjectEnd? {
      missing := [];
      assert rest + [] == [ObjectEnd] + rest[1..];
    } else {
      assert rest == [rest[0]] + rest[1..];
      var q := ParseMember(rest[0], rest[1..], escape);
      assert ms == [q.value] + ms[1..] && ParseMembers(q.rest, escape) == Done(ms[1..], tail);
      var m1 := SoundMember(rest[0], rest[1..], q.value, q.rest, escape);
      var m2 := SoundMorePairs(q.rest, ms[1..], tail, escape);
      missing := m1 + m2;
      CompletesThen(rest, m1, PairTokens(q.value), q.rest, m2, MorePairs(ms[1..]) + [ObjectEnd], tail);
      assert PairTokens(q.value) + (MorePairs(ms[1..]) + [ObjectEnd]) == Pairs(ms) + [ObjectEnd];
    }
  }

  lemma {:induction false} SoundMember(key: Token, after: seq<Token>, m: Member, tail: seq<Token>, escape: bool)
    returns (missing: seq<Token>)
    requires EndsClosed([key] + after) && CleanMember(m, escape)
    requires ParseMember(key, after, escape) == Done(m, tail)
    ensures Completes([key] + after, missing, PairTokens(m), tail)
    ensures ClosureOk(tail)
    decreases |after|, 4
  {
    hide ParseValue;
    assert |after| > 1 && EndsClosed([after[1]] + after[2..]) by {
      assert ([key] + after)[|after|] == after[|after| - 1];
      assert after[1..] == [after[1]] + after[2..];
    }
    ValueTail(after[1], after[2..], escape);
    missing := SoundValue(after[1], after[2..], m.value, tail, escape);
    CompletesBehind([key, Colon], [after[1]] + after[2..], missing, TokensOf(m.value), tail);
    assert [key] + after == [key, Colon] + ([after[1]] + after[2..]);
  }

  lemma {:induction false} SoundMorePairs(rest: seq<Token>, ms: seq<Member>, tail: seq<Token>, escape: bool)
    returns (missing: seq<Token>)
    requires EndsClosed(rest) && ClosureOk(rest) && CleanMembers(ms, escape)
    requires ParseMembers(rest, escape) == Done(ms, tail)
    ensures Completes(rest, missing, MorePairs(ms) + [ObjectEnd], tail)
    decreases |rest|, 1
  {
    if rest == [] || rest[0].ObjectEnd? {
      missing := SoundPairs(rest, ms, tail, escape);
    } else {
      assert rest == [rest[0]] + rest[1..];
      assert rest[0].Comma?;
      missing := SoundPairs(rest[1..], ms, tail, escape);
      CompletesBehind([Comma], rest[1..], missing, Pairs(ms) + [ObjectEnd], tail);
      assert [Comma] + (Pairs(ms) + [ObjectEnd]) == MorePairs(ms) + [ObjectEnd];
    }
  }

  // ---- the whole document ----

  /** The document is the token list of `root`, give or take what `Completes` allows. */
  ghost predicate Spells(tokens: seq<Token>, root: Json) {
    exists missing, tail :: Completes(tokens, missing, TokensOf(root), tail)
  }

  /** The array parser accepts exactly the lists that spell an array and end in `]`. */
  lemma ArraysExactly(tokens: seq<Token>, es: seq<Json>, escape: bool)
    requires CleanAll(es, escape)
    ensures Parse(tokens, escape) == Array(es) <==>
            tokens != [] && tokens[|tokens| - 1].ArrayEnd? && Spells(tokens, JArray(es))
  {
    hide ParseElements;
    hide ParseMembers;
    var root := JArray(es);
    if tokens != [] && tokens[|tokens| - 1].ArrayEnd? && Spells(tokens, root) {
      var missing, tail :| Completes(tokens, missing, TokensOf(root), tail);
      assert (tokens + missing)[0] == ArrayBegin;
      AcceptValue(root, tokens, missing, tail, escape);
    }
    if Parse(tokens, escape) == Array(es) {
      assert [ArrayBegin] + tokens[1..] == tokens;
      var p := ParseElements(tokens[1..], escape);
      ElementsTail(tokens[1..], escape);
      var missing := SoundValue(ArrayBegin, tokens[1..], root, p.rest, escape);
      assert Completes(tokens, missing, TokensOf(root), p.rest);
    }
  }

  /** The object parser accepts exactly the lists that spell an object and end in `}`. */
  lemma ObjectsExactly(tokens: seq<Token>, ms: seq<Member>, escape: bool)
    requires CleanMembers(ms, escape)
    ensures Parse(tokens, escape) == Object(ms) <==>
            tokens != [] && tokens[|tokens| - 1].ObjectEnd? && Spells(tokens, JObject(ms))
  {
    hide ParseElements;
    hide ParseMembers;
    var root := JObject(ms);
    if tokens != [] && tokens[|tokens| - 1].ObjectEnd? && Spells(tokens, root) {
      var missing, tail :| Completes(tokens, missing, TokensOf(root), tail);
      assert (tokens + missing)[0] == ObjectBegin;
      AcceptValue(root, tokens, missing, tail, escape);
    }
    if Parse(tokens, escape) == Object(ms) {
      assert [ObjectBegin] + tokens[1..] == tokens;
      var p := ParseMembers(tokens[1..], escape);
      MembersTail(tokens[1..], escape);
      var missing := SoundValue(ObjectBegin, tokens[1..], root, p.rest, escape);
      assert Completes(tokens, missing, TokensOf(root), p.rest);
    }
  }

  /** A tree's own tokens parse back to it, keys in order and duplicates kept. */
  lemma TokensParseBack(root: Json, escape: bool)
    requires Clean(root, escape) && IsContainer(root)
    ensures Parse(TokensOf(root), escape) ==
            if root.JArray? then Array(root.elements) else Object(root.members)
  {
    var ts := TokensOf(root);
    assert Completes(ts, [], ts, []) by {
      assert ts + [] == ts;
    }
    if root.JArray? {
      ArraysExactly(ts, root.elements, escape);
    } else {
      ObjectsExactly(ts, root.members, escape);
    }
  }

  /** The parser is not a recogniser: `[1}]` passes with a null pointer behind the 1. */
  lemma StrayBracePasses(escape: bool)
    ensures Parse([ArrayBegin, Num(1), ObjectEnd, ArrayEnd], escape) == Array([JInt(1), Missing])
  {
    var all := [ArrayBegin, Num(1), ObjectEnd, ArrayEnd];
    assert all[1..] == [Num(1), ObjectEnd, ArrayEnd];
    ElementsTurn([], all[1..], escape);
    assert all[1..][1..] == [ObjectEnd, ArrayEnd];
    ElementsTurn([JInt(1)], all[1..][1..], escape);
    assert all[1..][1..][1..] == [ArrayEnd];
    ElementsTurn([JInt(1), Missing], all[1..][1..][1..], escape);
    assert [JInt(1)] + [Missing] == [JInt(1), Missing];
    ExtendedNothing(ParseElements(all[1..], escape));
  }

  /** A parsed array is free of null pointers exactly when the tokens spell some such array. */
  lemma NullPointersExactly(tokens: seq<Token>, es: seq<Json>, escape: bool)
    requires Parse(tokens, escape) == Array(es)
    ensures CleanAll(es, escape) <==> exists fs :: CleanAll(fs, escape) && Spells(tokens, JArray(fs))
  {
    if CleanAll(es, escape) {
      ArraysExactly(tokens, es, escape);
    }
    forall fs | CleanAll(fs, escape) && Spells(tokens, JArray(fs))
      ensures fs == es
    {
      ArraysExactly(tokens, fs, escape);
    }
  }

  /** Likewise for a parsed object, whose arrays may hold them. */
  lemma NullPointersInObjectsExactly(tokens: seq<Token>, ms: seq<Member>, escape: bool)
    requires Parse(tokens, escape) == Object(ms)
    ensures CleanMembers(ms, escape) <==> exists ns :: CleanMembers(ns, escape) && Spells(tokens, JObject(ns))
  {
    if CleanMembers(ms, escape) {
      ObjectsExactly(tokens, ms, escape);
    }
    forall ns | CleanMembers(ns, escape) && Spells(tokens, JObject(ns))
      ensures ns == ms
    {
      ObjectsExactly(tokens, ns, escape);
    }
  }

  /** Nor does it miss closers at the very end: `[[]` passes for `[[]]`. */
  lemma MissingCloserPasses(escape: bool)
    ensures Parse([ArrayBegin, ArrayBegin, ArrayEnd], escape) == Array([JArray([])])
  {
    var root := JArray([JArray([])]);
    var ts := [ArrayBegin, ArrayBegin, ArrayEnd];
    assert Items([]) == [] && MoreItems([]) == [];
    assert [JArray([])][1..] == [];
    assert Items([JArray([])]) == [ArrayBegin, ArrayEnd];
    assert ts + [ArrayEnd] == TokensOf(root) + [];
    assert Completes(ts, [ArrayEnd], TokensOf(root), []);
    ArraysExactly(ts, root.elements, escape);
  }
}
