/**
 The whole language that the parser accepts, null pointers and missing closers included,
 by a grammar of its own, and the tree that each of its sentences yields.
 */
module JsonLanguage {
  import opened JsonLexer
  import opened JsonValue
  import opened JsonParser
  import JsonGrammar

  /** A value as it is spelled. What is not closed can only stand at the very end. */
  datatype Node =
    | Leaf(token: Token)
    | Arr(items: seq<Item>, closed: bool)
    | Obj(pairs: seq<Pair>, closed: bool)

  /** What an array is made of: values, some behind a comma, and stray tokens that give a null pointer. */
  datatype Item =
    | Value(comma: bool, node: Node)
    | Stray(token: Token)

  datatype Pair = Pair(key: string, node: Node)

  function End(closed: bool, closer: Token): seq<Token> { if closed then [closer] else [] }

  // ---- the tokens ----

  function NodeText(n: Node): seq<Token>
    decreases n
  {
    match n
    case Leaf(t) => [t]
    case Arr(items, closed) => [ArrayBegin] + (ItemsText(items) + End(closed, ArrayEnd))
    case Obj(pairs, closed) => [ObjectBegin] + (PairsText(pairs, true) + End(closed, ObjectEnd))
  }

  function ItemText(item: Item): seq<Token>
    decreases item
  {
    match item
    case Value(comma, n) => (if comma then [Comma] else []) + NodeText(n)
    case Stray(t) => [t]
  }

  function ItemsText(items: seq<Item>): seq<Token>
    decreases items
  {
    if items == [] then [] else ItemText(items[0]) + ItemsText(items[1..])
  }

  function PairText(p: Pair): seq<Token>
    decreases p
  {
    [Str(p.key), Colon] + NodeText(p.node)
  }

  function PairsText(ps: seq<Pair>, first: bool): seq<Token>
    decreases ps
  {
    if ps == [] then [] else (if first then [] else [Comma]) + PairText(ps[0]) + PairsText(ps[1..], false)
  }

  // ---- the tree ----

  function NodeTree(n: Node, escape: bool): Json
    decreases n
  {
    match n
    case Leaf(t) => ScalarValue(t, escape)
    case Arr(items, _) => JArray(ItemTrees(items, escape))
    case Obj(pairs, _) => JObject(PairTrees(pairs, escape))
  }

  function ItemTree(item: Item, escape: bool): Json
    decreases item
  {
    if item.Stray? then Missing else NodeTree(item.node, escape)
  }

  function ItemTrees(items: seq<Item>, escape: bool): seq<Json>
    decreases items
  {
    if items == [] then [] else [ItemTree(items[0], escape)] + ItemTrees(items[1..], escape)
  }

  function PairTree(p: Pair, escape: bool): Member
    decreases p
  {
    Member(JsonString(p.key, escape), NodeTree(p.node, escape))
  }

  function PairTrees(ps: seq<Pair>, escape: bool): seq<Member>
    decreases ps
  {
    if ps == [] then [] else [PairTree(ps[0], escape)] + PairTrees(ps[1..], escape)
  }

  // ---- the grammar ----

  /** What stands in front of an item: the opener, a value, or a stray token. */
  datatype Before = Opener | AValue | AStray

  /**
   A comma stands behind a value, and may stand behind a stray token; it is always in
   front of a value. A stray `}` is never the first item, and a stray `:` only follows another one.
   */
  predicate Fits(item: Item, before: Before) {
    match item
    case Value(comma, _) => (before.Opener? ==> !comma) && (before.AValue? ==> comma)
    case Stray(t) => (t.ObjectEnd? && !before.Opener?) || (t.Colon? && before.AStray?)
  }

  /** `last` says that nothing follows, so that closers may be missing. */
  predicate NodeOk(n: Node, last: bool)
    decreases n
  {
    match n
    case Leaf(t) => IsScalar(t)
    case Arr(items, closed) => (closed || last) && ItemsOk(items, Opener, !closed)
    case Obj(pairs, closed) => (closed || last) && PairsOk(pairs, !closed)
  }

  predicate ItemOk(item: Item, last: bool)
    decreases item
  {
    item.Value? ==> NodeOk(item.node, last)
  }

  predicate ItemsOk(items: seq<Item>, before: Before, last: bool)
    decreases items
  {
    || items == []
    || (&& Fits(items[0], before)
        && ItemOk(items[0], last && |items| == 1)
        && ItemsOk(items[1..], if items[0].Stray? then AStray else AValue, last))
  }

  predicate PairOk(p: Pair, last: bool)
    decreases p
  {
    NodeOk(p.node, last)
  }

  predicate PairsOk(ps: seq<Pair>, last: bool)
    decreases ps
  {
    ps == [] || (PairOk(ps[0], last && |ps| == 1) && PairsOk(ps[1..], last))
  }

  // ---- every sentence is accepted ----

  lemma Opens(n: Node, last: bool)
    requires NodeOk(n, last)
    ensures NodeText(n) != [] && StartsValue(NodeText(n)[0])
    ensures NodeOk(n, true)
  {
  }

  lemma Apart(t: Token, rest: seq<Token>)
    ensures ([t] + rest)[0] == t && ([t] + rest)[1..] == rest
  {
  }

  lemma ThreeAssociate(a: seq<Token>, b: seq<Token>, c: seq<Token>)
    ensures a + b + c == a + (b + c)
  {
  }

  lemma EndsClosedBehind(front: seq<Token>, rest: seq<Token>)
    ensures EndsClosed(front + rest) ==> EndsClosed(rest)
  {
    if rest != [] {
      assert (front + rest)[|front + rest| - 1] == rest[|rest| - 1];
    }
  }

  /** The tokens of a list of items, up to and behind its end. */
  function Rest(items: seq<Item>, closed: bool, tail: seq<Token>): seq<Token> {
    ItemsText(items) + (End(closed, ArrayEnd) + tail)
  }

  function PairsRest(ps: seq<Pair>, first: bool, closed: bool, tail: seq<Token>): seq<Token> {
    PairsText(ps, first) + (End(closed, ObjectEnd) + tail)
  }

  lemma RestSplits(items: seq<Item>, closed: bool, tail: seq<Token>)
    requires items != []
    ensures Rest(items, closed, tail) == ItemText(items[0]) + Rest(items[1..], closed, tail)
  {
    hide ItemText;
    ThreeAssociate(ItemText(items[0]), ItemsText(items[1..]), End(closed, ArrayEnd) + tail);
  }

  lemma RestEmpty(closed: bool, tail: seq<Token>)
    ensures Rest([], closed, tail) == if closed then [ArrayEnd] + tail else tail
  {
  }

  lemma PairsRestSplits(ps: seq<Pair>, first: bool, closed: bool, tail: seq<Token>)
    requires ps != []
    ensures var text := PairText(ps[0]) + PairsRest(ps[1..], false, closed, tail);
            PairsRest(ps, first, closed, tail) == if first then text else [Comma] + text
  {
    hide PairText;
    var more := PairsText(ps[1..], false);
    if first {
      assert [] + PairText(ps[0]) == PairText(ps[0]);
      ThreeAssociate(PairText(ps[0]), more, End(closed, ObjectEnd) + tail);
    } else {
      ThreeAssociate([Comma] + PairText(ps[0]), more, End(closed, ObjectEnd) + tail);
      ThreeAssociate([Comma], PairText(ps[0]), more + (End(closed, ObjectEnd) + tail));
    }
  }

  lemma PairsRestEmpty(first: bool, closed: bool, tail: seq<Token>)
    ensures PairsRest([], first, closed, tail) == if closed then [ObjectEnd] + tail else tail
  {
  }

  lemma NodeSplits(n: Node, tail: seq<Token>)
    ensures NodeText(n) + tail ==
            match n
            case Leaf(t) => [t] + tail
            case Arr(items, closed) => [ArrayBegin] + Rest(items, closed, tail)
            case Obj(pairs, closed) => [ObjectBegin] + PairsRest(pairs, true, closed, tail)
  {
    hide ItemsText;
    hide PairsText;
  }

  /** What stands behind an item lets it end. */
  lemma RestFollows(items: seq<Item>, before: Before, closed: bool, tail: seq<Token>)
    requires ItemsOk(items, before, !closed) && ClosureOk(tail)
    ensures before.AValue? ==> ClosureOk(Rest(items, closed, tail))
    ensures before.Opener? ==> OpenOk(ArrayBegin, Rest(items, closed, tail)) || items == []
    ensures before.Opener? && closed ==> OpenOk(ArrayBegin, Rest(items, closed, tail))
  {
    if items != [] {
      RestSplits(items, closed, tail);
      if items[0].Value? {
        Opens(items[0].node, !closed && |items| == 1);
      }
    }
  }

  lemma PairsFollow(ps: seq<Pair>, first: bool, closed: bool, tail: seq<Token>)
    requires ClosureOk(tail)
    ensures var rest := PairsRest(ps, first, closed, tail);
            if !first then ClosureOk(rest) else ps != [] || closed ==> OpenOk(ObjectBegin, rest)
  {
    if ps == [] {
      PairsRestEmpty(first, closed, tail);
    } else {
      PairsRestSplits(ps, first, closed, tail);
    }
  }

  /** One turn of the array parser at a value. */
  lemma ValueTurn(ts: seq<Token>, v: Json, more: seq<Token>, escape: bool)
    requires ts != [] && StartsValue(ts[0]) && EndsClosed(ts) && EndsClosed([ts[0]] + ts[1..])
    requires ParseValue(ts[0], ts[1..], escape) == Done(v, more)
    ensures EndsClosed(more) && ParseElements(ts, escape) == Cons(v, ParseElements(more, escape))
  {
    hide ParseValue;
  }

  /** At a comma in front of one. */
  lemma CommaTurn(ts: seq<Token>, escape: bool)
    requires ts != [] && StartsValue(ts[0]) && EndsClosed(ts)
    ensures EndsClosed([Comma] + ts) && ParseElements([Comma] + ts, escape) == ParseElements(ts, escape)
  {
    hide ParseValue;
    Apart(Comma, ts);
    assert ([Comma] + ts)[|ts|] == ts[|ts| - 1];
  }

  /** At a stray token. */
  lemma StrayTurn(t: Token, more: seq<Token>, escape: bool)
    requires (t.ObjectEnd? || t.Colon?) && EndsClosed([t] + more) && EndsClosed(more)
    ensures ParseElements([t] + more, escape) == Cons(Missing, ParseElements(more, escape))
  {
    Apart(t, more);
    assert ParseValue(t, more, escape) == Done(Missing, more);
    hide ParseValue;
  }

  /** The opener in front of a container that has been read. */
  lemma ContainerTurn(t: Token, rest: seq<Token>, escape: bool)
    requires EndsClosed([t] + rest) && EndsClosed(rest) && OpenOk(t, rest)
    ensures t.ArrayBegin? && ParseElements(rest, escape).Done? ==>
              var q := ParseElements(rest, escape); ParseValue(t, rest, escape) == Done(JArray(q.value), q.rest)
    ensures t.ObjectBegin? && ParseMembers(rest, escape).Done? ==>
              var q := ParseMembers(rest, escape); ParseValue(t, rest, escape) == Done(JObject(q.value), q.rest)
  {
    hide ParseElements;
    hide ParseMembers;
  }

  lemma LeafTurn(t: Token, tail: seq<Token>, escape: bool)
    requires IsScalar(t) && ClosureOk(tail) && EndsClosed([t] + tail)
    ensures ParseValue(t, tail, escape) == Done(ScalarValue(t, escape), tail)
  {
    hide ParseElements;
    hide ParseMembers;
  }

  lemma {:induction false} AcceptNode(n: Node, tail: seq<Token>, escape: bool)
    requires NodeOk(n, tail == []) && ClosureOk(tail) && EndsClosed(NodeText(n) + tail)
    ensures var ts := NodeText(n) + tail;
            && ts != [] && StartsValue(ts[0]) && [ts[0]] + ts[1..] == ts
            && ParseValue(ts[0], ts[1..], escape) == Done(NodeTree(n, escape), tail)
    decreases n, 1
  {
    hide ParseValue;
    hide ParseElements;
    hide ParseMembers;
    hide ItemsText;
    hide PairsText;
    NodeSplits(n, tail);
    hide NodeText;
    hide Rest;
    hide PairsRest;
    if n.Leaf? {
      Apart(n.token, tail);
      LeafTurn(n.token, tail, escape);
    } else if n.Arr? {
      var rest := Rest(n.items, n.closed, tail);
      Apart(ArrayBegin, rest);
      EndsClosedBehind([ArrayBegin], rest);
      RestEmpty(n.closed, tail);
      RestFollows(n.items, Opener, n.closed, tail);
      AcceptItems(n.items, Opener, n.closed, tail, escape);
      ContainerTurn(ArrayBegin, rest, escape);
    } else {
      var rest := PairsRest(n.pairs, true, n.closed, tail);
      Apart(ObjectBegin, rest);
      EndsClosedBehind([ObjectBegin], rest);
      PairsRestEmpty(true, n.closed, tail);
      PairsFollow(n.pairs, true, n.closed, tail);
      AcceptPairs(n.pairs, true, n.closed, tail, escape);
      ContainerTurn(ObjectBegin, rest, escape);
    }
  }

  lemma {:induction false} AcceptItems(items: seq<Item>, before: Before, closed: bool, tail: seq<Token>, escape: bool)
    requires ItemsOk(items, before, !closed) && ClosureOk(tail) && (closed || tail == [])
    requires EndsClosed(Rest(items, closed, tail))
    ensures ParseElements(Rest(items, closed, tail), escape) == Done(ItemTrees(items, escape), tail)
    decreases items, 0
  {
    hide ParseValue;
    hide Rest;
    if items == [] {
      RestEmpty(closed, tail);
      Apart(ArrayEnd, tail);
    } else {
      hide ParseElements;
      var more := Rest(items[1..], closed, tail);
      RestSplits(items, closed, tail);
      EndsClosedBehind(ItemText(items[0]), more);
      AcceptItems(items[1..], if items[0].Stray? then AStray else AValue, closed, tail, escape);
      if items[0].Stray? {
        StrayTurn(items[0].token, more, escape);
      } else {
        RestFollows(items[1..], AValue, closed, tail);
        RestEmpty(closed, tail);
        Opens(items[0].node, !closed && |items| == 1);
        AcceptItem(items[0], more, escape);
      }
    }
  }

  lemma {:induction false} AcceptItem(item: Item, more: seq<Token>, escape: bool)
    requires item.Value? && NodeOk(item.node, more == []) && ClosureOk(more) && EndsClosed(ItemText(item) + more)
    ensures EndsClosed(more)
    ensures ParseElements(ItemText(item) + more, escape)
         == Cons(NodeTree(item.node, escape), ParseElements(more, escape))
    decreases item, 2
  {
    hide ParseElements;
    hide ParseValue;
    hide NodeText;
    var ts := NodeText(item.node) + more;
    ItemSplits(item, more);
    EndsClosedBehind([Comma], ts);
    AcceptNode(item.node, more, escape);
    ValueTurn(ts, NodeTree(item.node, escape), more, escape);
    CommaTurn(ts, escape);
  }

  lemma ItemSplits(item: Item, more: seq<Token>)
    requires item.Value?
    ensures var ts := NodeText(item.node) + more;
            ItemText(item) + more == if item.comma then [Comma] + ts else ts
  {
    hide NodeText;
    if item.comma {
      ThreeAssociate([Comma], NodeText(item.node), more);
    } else {
      assert [] + NodeText(item.node) == NodeText(item.node);
    }
  }

  /** One turn of the object parser. */
  lemma MemberTurn(ts: seq<Token>, m: Member, more: seq<Token>, escape: bool)
    requires ts != [] && ts[0].Str? && EndsClosed(ts) && EndsClosed([ts[0]] + ts[1..])
    requires ParseMember(ts[0], ts[1..], escape) == Done(m, more)
    ensures EndsClosed(more) && ParseMembers(ts, escape) == Cons(m, ParseMembers(more, escape))
    ensures EndsClosed([Comma] + ts) && ParseMembers([Comma] + ts, escape) == ParseMembers(ts, escape)
  {
    hide ParseMember;
    Apart(Comma, ts);
    assert ([Comma] + ts)[|ts|] == ts[|ts| - 1];
  }

  lemma {:induction false} AcceptPairs(ps: seq<Pair>, first: bool, closed: bool, tail: seq<Token>, escape: bool)
    requires PairsOk(ps, !closed) && ClosureOk(tail) && (closed || tail == [])
    requires EndsClosed(PairsRest(ps, first, closed, tail))
    ensures ParseMembers(PairsRest(ps, first, closed, tail), escape) == Done(PairTrees(ps, escape), tail)
    decreases ps, 0
  {
    hide ParseMember;
    hide PairsRest;
    if ps == [] {
      PairsRestEmpty(first, closed, tail);
      Apart(ObjectEnd, tail);
    } else {
      hide ParseMembers;
      var more := PairsRest(ps[1..], false, closed, tail);
      var ts := PairText(ps[0]) + more;
      PairsRestSplits(ps, first, closed, tail);
      EndsClosedBehind(if first then [] else [Comma], ts) by {
        assert [] + ts == ts;
      }
      EndsClosedBehind(PairText(ps[0]), more);
      AcceptPairs(ps[1..], false, closed, tail, escape);
      PairsFollow(ps[1..], false, closed, tail);
      PairsRestEmpty(false, closed, tail);
      Opens(ps[0].node, !closed && |ps| == 1);
      AcceptPair(ps[0], more, escape);
      MemberTurn(ts, PairTree(ps[0], escape), more, escape);
    }
  }

  /** A key and its colon in front of a value. */
  lemma MemberIs(key: string, value: seq<Token>, v: Json, more: seq<Token>, escape: bool)
    requires value != [] && StartsValue(value[0]) && [value[0]] + value[1..] == value && EndsClosed(value)
    requires ParseValue(value[0], value[1..], escape) == Done(v, more)
    ensures var ts := [Str(key), Colon] + value;
            && EndsClosed(ts) && ts[0] == Str(key) && [ts[0]] + ts[1..] == ts
            && ParseMember(ts[0], ts[1..], escape) == Done(Member(JsonString(key, escape), v), more)
  {
    hide ParseValue;
    var ts := [Str(key), Colon] + value;
    assert ts[|ts| - 1] == value[|value| - 1];
    assert ts[1..][1] == value[0] && ts[1..][2..] == value[1..];
  }

  lemma {:induction false} AcceptPair(p: Pair, more: seq<Token>, escape: bool)
    requires NodeOk(p.node, more == []) && ClosureOk(more) && EndsClosed(PairText(p) + more)
    ensures var ts := PairText(p) + more;
            && ts != [] && ts[0] == Str(p.key) && [ts[0]] + ts[1..] == ts
            && ParseMember(ts[0], ts[1..], escape) == Done(PairTree(p, escape), more)
    decreases p, 2
  {
    hide ParseValue;
    hide ParseMember;
    hide NodeText;
    hide NodeOk;
    var value := NodeText(p.node) + more;
    ThreeAssociate([Str(p.key), Colon], NodeText(p.node), more);
    EndsClosedBehind([Str(p.key), Colon], value);
    AcceptNode(p.node, more, escape);
    MemberIs(p.key, value, NodeTree(p.node, escape), more, escape);
  }

  // ---- and nothing else ----

  /** A value comes from a sentence. */
  lemma {:induction false} SoundNode(t: Token, rest: seq<Token>, escape: bool) returns (n: Node)
    requires EndsClosed([t] + rest) && StartsValue(t) && ParseValue(t, rest, escape).Done?
    ensures var q := ParseValue(t, rest, escape);
            && NodeOk(n, q.rest == []) && NodeTree(n, escape) == q.value
            && NodeText(n) + q.rest == [t] + rest && ClosureOk(q.rest)
    decreases |rest|, 3
  {
    hide ParseElements;
    hide ParseMembers;
    hide ItemsText;
    hide PairsText;
    EndsClosedBehind([t], rest);
    var q := ParseValue(t, rest, escape);
    if t.ArrayBegin? {
      var items, closed := SoundItems(rest, Opener, escape);
      n := Arr(items, closed);
    } else if t.ObjectBegin? {
      var pairs, closed := SoundPairs(rest, true, escape);
      n := Obj(pairs, closed);
    } else {
      n := Leaf(t);
    }
    NodeSplits(n, q.rest);
  }

  lemma {:induction false} SoundItems(rest: seq<Token>, before: Before, escape: bool)
    returns (items: seq<Item>, closed: bool)
    requires EndsClosed(rest) && ParseElements(rest, escape).Done?
    requires (before.Opener? ==> OpenOk(ArrayBegin, rest)) && (before.AValue? ==> ClosureOk(rest))
    ensures var q := ParseElements(rest, escape);
            && ItemsOk(items, before, !closed) && ItemTrees(items, escape) == q.value
            && Rest(items, closed, q.rest) == rest && ClosureOk(q.rest)
            && (closed || q.rest == []) && (rest == [] ==> items == [] && !closed)
    decreases |rest|, 2
  {
    hide ParseValue;
    hide Rest;
    var q := ParseElements(rest, escape);
    RestEmpty(rest != [], q.rest);
    if rest == [] || rest[0].ArrayEnd? {
      items, closed := [], rest != [];
    } else {
      var t, after := rest[0], rest[1..];
      assert rest == [t] + after;
      EndsClosedBehind([t], after);
      if t.ObjectEnd? || t.Colon? {
        StrayTurn(t, after, escape);
        hide ParseElements;
        items, closed := SoundItems(after, AStray, escape);
        ghost var more := items;
        items := [Stray(t)] + items;
        assert items[1..] == more;
        assert Fits(items[0], before);
        assert ItemsOk(items, before, !closed);
        RestSplits(items, closed, q.rest);
      } else if t.Comma? {
        assert after != [] && StartsValue(after[0]);
        hide ParseElements;
        items, closed := SoundFirst(true, after, escape);
        assert Fits(items[0], before);
      } else {
        hide ParseElements;
        items, closed := SoundFirst(false, rest, escape);
        assert Fits(items[0], before);
      }
    }
  }

  lemma {:induction false} SoundFirst(comma: bool, ts: seq<Token>, escape: bool)
    returns (items: seq<Item>, closed: bool)
    requires ts != [] && StartsValue(ts[0]) && EndsClosed(ts) && ParseElements(ts, escape).Done?
    ensures var q := ParseElements(ts, escape);
            && items != [] && items[0].Value? && items[0].comma == comma
            && (forall before :: Fits(items[0], before) ==> ItemsOk(items, before, !closed))
            && ItemTrees(items, escape) == q.value
            && Rest(items, closed, q.rest) == (if comma then [Comma] + ts else ts) && ClosureOk(q.rest)
            && (closed || q.rest == [])
    decreases |ts|, 1
  {
    hide ParseValue;
    hide Rest;
    hide NodeText;
    assert ts == [ts[0]] + ts[1..];
    var p := ParseValue(ts[0], ts[1..], escape);
    var n := SoundNode(ts[0], ts[1..], escape);
    ValueTurn(ts, p.value, p.rest, escape);
    var q := ParseElements(ts, escape);
    hide ParseElements;
    var more;
    more, closed := SoundItems(p.rest, AValue, escape);
    Opens(n, p.rest == []);
    items := [Value(comma, n)] + more;
    assert items[1..] == more;
    RestSplits(items, closed, q.rest);
    ThreeAssociate([Comma], NodeText(n), p.rest);
    assert [] + NodeText(n) == NodeText(n);
  }

  lemma NotAKey(rest: seq<Token>, escape: bool)
    requires rest != [] && EndsClosed(rest) && !rest[0].ObjectEnd? && !rest[0].Comma? && !rest[0].Str?
    ensures ParseMembers(rest, escape).Fails?
  {
    assert rest == [rest[0]] + rest[1..];
  }

  lemma {:induction false} SoundPairs(rest: seq<Token>, first: bool, escape: bool)
    returns (ps: seq<Pair>, closed: bool)
    requires EndsClosed(rest) && ParseMembers(rest, escape).Done?
    requires if first then OpenOk(ObjectBegin, rest) else ClosureOk(rest)
    ensures var q := ParseMembers(rest, escape);
            && PairsOk(ps, !closed) && PairTrees(ps, escape) == q.value
            && PairsRest(ps, first, closed, q.rest) == rest && ClosureOk(q.rest)
            && (closed || q.rest == []) && (rest == [] ==> ps == [] && !closed)
    decreases |rest|, 2
  {
    hide ParseMember;
    hide PairsRest;
    var q := ParseMembers(rest, escape);
    PairsRestEmpty(first, rest != [], q.rest);
    if rest == [] || rest[0].ObjectEnd? {
      ps, closed := [], rest != [];
    } else {
      var t, after := rest[0], rest[1..];
      assert rest == [t] + after;
      EndsClosedBehind([t], after);
      if !t.Comma? && !t.Str? {
        NotAKey(rest, escape);
      }
      if first {
        ps, closed := SoundMember(true, rest, escape);
      } else {
        assert t.Comma? && after != [] && !after[0].ObjectEnd? && !after[0].Comma?;
        hide ParseMembers;
        ps, closed := SoundMember(false, after, escape);
      }
    }
  }

  lemma {:induction false} SoundMember(first: bool, ts: seq<Token>, escape: bool)
    returns (ps: seq<Pair>, closed: bool)
    requires ts != [] && !ts[0].ObjectEnd? && !ts[0].Comma? && EndsClosed(ts) && ParseMembers(ts, escape).Done?
    ensures var q := ParseMembers(ts, escape);
            && ps != [] && PairsOk(ps, !closed) && PairTrees(ps, escape) == q.value
            && PairsRest(ps, first, closed, q.rest) == (if first then ts else [Comma] + ts) && ClosureOk(q.rest)
            && (closed || q.rest == [])
    decreases |ts|, 1
  {
    hide ParseMember;
    hide PairsRest;
    hide NodeText;
    assert ts == [ts[0]] + ts[1..];
    var p := ParseMember(ts[0], ts[1..], escape);
    var q := ParseMembers(ts, escape);
    assert q == Cons(p.value, ParseMembers(p.rest, escape));
    var pair := SoundPair(ts[0], ts[1..], escape);
    hide ParseMembers;
    var more;
    more, closed := SoundPairs(p.rest, false, escape);
    Opens(pair.node, p.rest == []);
    ps := [pair] + more;
    assert ps[1..] == more;
    PairsRestSplits(ps, first, closed, q.rest);
  }

  lemma {:induction false} SoundPair(key: Token, after: seq<Token>, escape: bool) returns (p: Pair)
    requires EndsClosed([key] + after) && ParseMember(key, after, escape).Done?
    ensures var q := ParseMember(key, after, escape);
            && NodeOk(p.node, q.rest == []) && PairTree(p, escape) == q.value
            && PairText(p) + q.rest == [key] + after && ClosureOk(q.rest)
    decreases |after|, 4
  {
    hide ParseValue;
    hide NodeText;
    assert after != [] ==> ([key] + after)[|after|] == after[|after| - 1];
    var q := ParseMember(key, after, escape);
    assert |after| > 1 && after[1..] == [after[1]] + after[2..];
    EndsClosedBehind([key, after[0]], after[1..]) by {
      assert [key] + after == [key, after[0]] + after[1..];
    }
    var n := SoundNode(after[1], after[2..], escape);
    p := Pair(key.lexeme, n);
    ThreeAssociate([key, Colon], NodeText(n), q.rest);
    assert [key] + after == [key, Colon] + after[1..];
  }

  // ---- the whole document ----

  /** `tokens` is a sentence for `root`, or one and something that may follow a value. */
  ghost predicate Sentence(tokens: seq<Token>, root: Json, escape: bool) {
    exists n, tail ::
      NodeOk(n, tail == []) && ClosureOk(tail) && NodeText(n) + tail == tokens && NodeTree(n, escape) == root
  }

  /** Behind the check of both ends, a document is a value. */
  lemma DocumentIs(tokens: seq<Token>, escape: bool)
    requires tokens != [] && (tokens[0].ArrayBegin? || tokens[0].ObjectBegin?)
    requires EndsClosed([tokens[0]] + tokens[1..]) && BeginEndOk(tokens)
    ensures var p := ParseValue(tokens[0], tokens[1..], escape);
            Parse(tokens, escape) == if p.Fails? then SyntaxFault
                                     else if p.value.JArray? then Array(p.value.elements)
                                     else if p.value.JObject? then Object(p.value.members)
                                     else SyntaxFault
  {
    hide ParseElements;
    hide ParseMembers;
  }

  /** Of a sentence for a container, the tokens start as it does, and parse to it. */
  lemma SentenceParses(tokens: seq<Token>, root: Json, escape: bool)
    requires EndsClosed(tokens) && IsContainer(root) && Sentence(tokens, root, escape)
    ensures tokens != [] && tokens[0] == if root.JArray? then ArrayBegin else ObjectBegin
    ensures [tokens[0]] + tokens[1..] == tokens
    ensures var p := ParseValue(tokens[0], tokens[1..], escape); p.Done? && p.value == root
  {
    var n, tail :|
      NodeOk(n, tail == []) && ClosureOk(tail) && NodeText(n) + tail == tokens && NodeTree(n, escape) == root;
    hide ParseValue;
    hide ItemsText;
    hide PairsText;
    NodeSplits(n, tail);
    AcceptNode(n, tail, escape);
  }

  lemma ParsesSentence(tokens: seq<Token>, escape: bool)
    requires tokens != [] && StartsValue(tokens[0])
    requires EndsClosed([tokens[0]] + tokens[1..]) && ParseValue(tokens[0], tokens[1..], escape).Done?
    ensures Sentence(tokens, ParseValue(tokens[0], tokens[1..], escape).value, escape)
  {
    hide ParseValue;
    hide NodeText;
    hide NodeOk;
    var p := ParseValue(tokens[0], tokens[1..], escape);
    var n := SoundNode(tokens[0], tokens[1..], escape);
    assert NodeText(n) + p.rest == tokens;
  }

  /**
   On every token list, the parser returns an array exactly when the list is a sentence for
   it that ends in `]`, null pointers or not.
   */
  lemma ArrayLanguageExactly(tokens: seq<Token>, es: seq<Json>, escape: bool)
    ensures Parse(tokens, escape) == Array(es) <==>
            tokens != [] && tokens[|tokens| - 1].ArrayEnd? && Sentence(tokens, JArray(es), escape)
  {
    hide ParseValue;
    hide Sentence;
    if tokens != [] && tokens[|tokens| - 1].ArrayEnd? && Sentence(tokens, JArray(es), escape) {
      SentenceParses(tokens, JArray(es), escape);
      DocumentIs(tokens, escape);
    }
    if Parse(tokens, escape) == Array(es) {
      assert tokens == [tokens[0]] + tokens[1..];
      DocumentIs(tokens, escape);
      hide Parse;
      ParsesSentence(tokens, escape);
    }
  }

  /** And an object exactly when it is one for it that ends in `}`. */
  lemma ObjectLanguageExactly(tokens: seq<Token>, ms: seq<Member>, escape: bool)
    ensures Parse(tokens, escape) == Object(ms) <==>
            tokens != [] && tokens[|tokens| - 1].ObjectEnd? && Sentence(tokens, JObject(ms), escape)
  {
    hide ParseValue;
    hide Sentence;
    if tokens != [] && tokens[|tokens| - 1].ObjectEnd? && Sentence(tokens, JObject(ms), escape) {
      SentenceParses(tokens, JObject(ms), escape);
      DocumentIs(tokens, escape);
    }
    if Parse(tokens, escape) == Object(ms) {
      assert tokens == [tokens[0]] + tokens[1..];
      DocumentIs(tokens, escape);
      hide Parse;
      ParsesSentence(tokens, escape);
    }
  }

  /** The other documents: a scalar on its own, and no token at all. Anything else is a fault. */
  lemma OtherDocumentsExactly(tokens: seq<Token>, t: Token, escape: bool)
    ensures Parse(tokens, escape) == Scalar(t) <==>
            tokens == [t] && (t.Str? || t.Num? || t.Float? || t.True? || t.False? || t.Null?)
    ensures Parse(tokens, escape) == Empty <==> tokens == []
  {
    hide ParseElements;
    hide ParseMembers;
  }

  /** On trees without null pointers the two grammars agree. */
  lemma GrammarsAgree(tokens: seq<Token>, es: seq<Json>, escape: bool)
    requires CleanAll(es, escape) && tokens != [] && tokens[|tokens| - 1].ArrayEnd?
    ensures Sentence(tokens, JArray(es), escape) <==> JsonGrammar.Spells(tokens, JArray(es))
  {
    ArrayLanguageExactly(tokens, es, escape);
    JsonGrammar.ArraysExactly(tokens, es, escape);
  }
}
