/**
 `parseKeyValue`: forms and queries ('&' between pairs) and cookies (';', and spaces
 behind it), into a map in which the last value of a name wins.
 */
module KeyValue {
  import opened Common
  import opened UrlCodec

  type Text = seq<Byte>

  const SPACE: Byte := 32

  /** `find` of one byte: where it first occurs, or the length. */
  function Find(s: Text, c: Byte): (n: nat)
    ensures n <= |s| && c !in s[..n] && (n < |s| ==> s[n] == c)
  {
    if s == [] || s[0] == c then 0
    else
      var n := Find(s[1..], c);
      assert s[..n + 1] == [s[0]] + s[1..][..n];
      1 + n
  }

  function Spaces(s: Text): (n: nat)
    ensures n <= |s|
  {
    if s == [] || s[0] != SPACE then 0 else 1 + Spaces(s[1..])
  }

  /**
   The name and the value of one piece. A piece without a separator is both: past
   `npos` the arithmetic on positions wraps around to its start.
   */
  function Split(kv: Text, s1: Byte): (Text, Text) {
    var p := Find(kv, s1);
    if p == |kv| then (kv, kv) else (kv[..p], kv[p + 1..])
  }

  function Put(m: map<Text, Text>, kv: (Text, Text)): map<Text, Text> { m[kv.0 := kv.1] }

  function Decoded(kv: (Text, Text)): (Text, Text) { (Decode(kv.0), Decode(kv.1)) }

  /** The parser on the text left. */
  function Parse(s: Text, s1: Byte, s2: Byte, m: map<Text, Text>): map<Text, Text>
    decreases |s|
  {
    if s == [] then m
    else
      var pos := Find(s, s2);
      var n := Put(m, Decoded(Split(s[..pos], s1)));
      if pos == |s| then n else Parse(s[pos + 1 + Spaces(s[pos + 1..])..], s1, s2, n)
  }

  // ---- what is parsed back ----

  /** A piece of a form or query: with a separator, or without one. */
  datatype Piece = Whole(text: Text) | Both(name: Text, value: Text)

  function PieceText(p: Piece, s1: Byte): Text { if p.Whole? then p.text else p.name + [s1] + p.value }

  /** The first separator of a piece ends its name. */
  predicate PieceOk(p: Piece, s1: Byte, s2: Byte) {
    match p
    case Whole(text) => s1 !in text && s2 !in text
    case Both(name, value) => s1 !in name && s2 !in name && s2 !in value
  }

  /** What is decoded is each side of it; a piece without one is name and value at once. */
  function Meaning(p: Piece): (Text, Text) {
    match p
    case Whole(text) => (Decode(text), Decode(text))
    case Both(name, value) => (Decode(name), Decode(value))
  }

  function Meanings(pieces: seq<Piece>): seq<(Text, Text)> {
    if pieces == [] then [] else [Meaning(pieces[0])] + Meanings(pieces[1..])
  }

  function Blank(n: nat): Text { if n == 0 then [] else [SPACE] + Blank(n - 1) }

  /** The pieces, with the separator and `gaps[i]` spaces behind each but the last. */
  function Join(pieces: seq<Piece>, gaps: seq<nat>, s1: Byte, s2: Byte): Text
    requires |gaps| == |pieces|
  {
    if pieces == [] then []
    else if |pieces| == 1 then PieceText(pieces[0], s1)
    else PieceText(pieces[0], s1) + [s2] + Blank(gaps[0]) + Join(pieces[1..], gaps[1..], s1, s2)
  }

  /** Putting the pairs into a map one by one. */
  function PutAll(m: map<Text, Text>, pairs: seq<(Text, Text)>): map<Text, Text>
    decreases |pairs|
  {
    if pairs == [] then m else PutAll(Put(m, pairs[0]), pairs[1..])
  }

  /** A byte that encoded text does not hold. */
  predicate Separator(c: Byte) { !Plain(c) && c as int != '%' as int }

  /** So are those of forms and queries, and of cookies. */
  lemma SeparatorsAre()
    ensures Separator('=' as int as Byte) && Separator('&' as int as Byte) && Separator(';' as int as Byte)
    ensures SPACE as int == ' ' as int && Separator(SPACE)
  {
  }

  lemma {:induction false} FindBehind(w: Text, c: Byte, rest: Text)
    requires c !in w
    ensures Find(w + rest, c) == |w| + Find(rest, c)
  {
    if w == [] {
      assert w + rest == rest;
    } else {
      assert (w + rest)[1..] == w[1..] + rest;
      FindBehind(w[1..], c, rest);
    }
  }

  lemma {:induction false} BlankSpaces(n: nat, rest: Text)
    requires rest != [] ==> rest[0] != SPACE
    ensures Spaces(Blank(n) + rest) == n && |Blank(n)| == n
  {
    if n == 0 {
      assert Blank(n) + rest == rest;
    } else {
      assert (Blank(n) + rest)[1..] == Blank(n - 1) + rest;
      BlankSpaces(n - 1, rest);
    }
  }

  lemma EncodedDecodes(s: Text)
    ensures Decode(Encode(s)) == s
  {
    EncodeDecodes(s, []);
    assert Encode(s) + [] == Encode(s) && s + [] == s;
  }

  /** One piece splits as it is meant. */
  lemma PieceSplits(p: Piece, s1: Byte, s2: Byte)
    requires PieceOk(p, s1, s2) && s1 != s2
    ensures s2 !in PieceText(p, s1) && Decoded(Split(PieceText(p, s1), s1)) == Meaning(p)
  {
    hide Decode;
    var text := PieceText(p, s1);
    if p.Whole? {
      FindBehind(text, s1, []);
      assert text + [] == text;
    } else {
      assert text == p.name + ([s1] + p.value);
      FindBehind(p.name, s1, [s1] + p.value);
      assert text[..|p.name|] == p.name && text[|p.name| + 1..] == p.value;
    }
  }

  lemma FindHere(c: Byte, rest: Text)
    ensures Find([c] + rest, c) == 0
  {
  }

  /** The first of several pieces, and what is left behind it. */
  lemma PieceTurn(p: Text, s2: Byte, n: nat, rest: Text)
    requires s2 !in p && rest != [] && rest[0] != SPACE
    ensures var s := p + ([s2] + (Blank(n) + rest));
            && |p| + 1 + n <= |s| && Find(s, s2) == |p| && s[..|p|] == p
            && Spaces(s[|p| + 1..]) == n && s[|p| + 1 + n..] == rest
  {
    hide Blank;
    hide Spaces;
    hide Find;
    BlankSpaces(n, rest);
    FindHere(s2, Blank(n) + rest);
    FindBehind(p, s2, [s2] + (Blank(n) + rest));
    Cut(p, s2, Blank(n), rest);
  }

  lemma Cut(p: Text, c: Byte, b: Text, rest: Text)
    ensures var s := p + ([c] + (b + rest));
            && |s| == |p| + 1 + |b| + |rest|
            && s[..|p|] == p && s[|p| + 1..] == b + rest && s[|p| + 1 + |b|..] == rest
  {
  }

  lemma ParseLast(p: Text, s1: Byte, s2: Byte, m: map<Text, Text>)
    requires p != [] && s2 !in p
    ensures Parse(p, s1, s2, m) == Put(m, Decoded(Split(p, s1)))
  {
    FindBehind(p, s2, []);
    assert p + [] == p && p[..|p|] == p;
  }

  lemma ParseStep(s: Text, pos: nat, n: nat, s1: Byte, s2: Byte, m: map<Text, Text>)
    requires pos < |s| && Find(s, s2) == pos && Spaces(s[pos + 1..]) == n && pos + 1 + n <= |s|
    ensures Parse(s, s1, s2, m) == Parse(s[pos + 1 + n..], s1, s2, Put(m, Decoded(Split(s[..pos], s1))))
  {
    hide Find;
    hide Spaces;
    hide Split;
    hide Decoded;
  }

  /** The parser on the first of several pieces. */
  lemma ParseTurn(p: Text, n: nat, rest: Text, s1: Byte, s2: Byte, m: map<Text, Text>)
    requires s2 !in p && rest != [] && rest[0] != SPACE
    ensures Parse(p + ([s2] + (Blank(n) + rest)), s1, s2, m) == Parse(rest, s1, s2, Put(m, Decoded(Split(p, s1))))
  {
    hide Find;
    hide Spaces;
    hide Split;
    hide Decoded;
    hide Parse;
    PieceTurn(p, s2, n, rest);
    ParseStep(p + ([s2] + (Blank(n) + rest)), |p|, n, s1, s2, m);
  }

  /** No piece but the first begins with a space, and the last one is not empty. */
  predicate Readable(pieces: seq<Piece>, s1: Byte, s2: Byte) {
    && (forall i :: 0 <= i < |pieces| ==> PieceOk(pieces[i], s1, s2))
    && (forall i :: 1 <= i < |pieces| ==> NoGap(PieceText(pieces[i], s1) + [s2]))
    && (pieces != [] ==> PieceText(pieces[|pieces| - 1], s1) != [])
  }

  predicate NoGap(text: Text) { text != [] && text[0] != SPACE }

  /** Any pieces, escaped in whatever way, are parsed to the map of what they mean, the last of a name winning. */
  lemma {:induction false} PiecesReadBack(pieces: seq<Piece>, gaps: seq<nat>, s1: Byte, s2: Byte,
                                          m: map<Text, Text>)
    requires |gaps| == |pieces| && s1 != s2 && Readable(pieces, s1, s2)
    ensures Parse(Join(pieces, gaps, s1, s2), s1, s2, m) == PutAll(m, Meanings(pieces))
    decreases |pieces|
  {
    hide PieceText;
    hide PieceOk;
    hide Meaning;
    hide Split;
    hide Decoded;
    hide Parse;
    if pieces == [] {
      ParseNothing(s1, s2, m);
    } else {
      var p := PieceText(pieces[0], s1);
      PieceSplits(pieces[0], s1, s2);
      if |pieces| == 1 {
        ParseLast(p, s1, s2, m);
        assert Meanings(pieces) == [Meaning(pieces[0])];
      } else {
        var rest := Join(pieces[1..], gaps[1..], s1, s2);
        RestStarts(pieces[1..], gaps[1..], s1, s2);
        JoinUnfolds(pieces, gaps, s1, s2);
        ParseTurn(p, gaps[0], rest, s1, s2, m);
        hide Blank;
        PiecesReadBack(pieces[1..], gaps[1..], s1, s2, Put(m, Meaning(pieces[0])));
        PutFirst(m, pieces);
      }
    }
  }

  lemma PutFirst(m: map<Text, Text>, pieces: seq<Piece>)
    requires pieces != []
    ensures PutAll(m, Meanings(pieces)) == PutAll(Put(m, Meaning(pieces[0])), Meanings(pieces[1..]))
  {
    assert Meanings(pieces)[1..] == Meanings(pieces[1..]);
  }

  /** Where a further piece begins. */
  lemma RestStarts(pieces: seq<Piece>, gaps: seq<nat>, s1: Byte, s2: Byte)
    requires |gaps| == |pieces| > 0 && NoGap(PieceText(pieces[0], s1) + [s2])
    requires PieceText(pieces[|pieces| - 1], s1) != []
    ensures NoGap(Join(pieces, gaps, s1, s2))
  {
    hide PieceText;
    var p := PieceText(pieces[0], s1);
    if |pieces| > 1 {
      JoinUnfolds(pieces, gaps, s1, s2);
    }
    assert p != [] ==> (p + [s2])[0] == p[0];
  }

  lemma JoinUnfolds(pieces: seq<Piece>, gaps: seq<nat>, s1: Byte, s2: Byte)
    requires |gaps| == |pieces| && |pieces| > 1
    ensures Join(pieces, gaps, s1, s2)
         == PieceText(pieces[0], s1) + ([s2] + (Blank(gaps[0]) + Join(pieces[1..], gaps[1..], s1, s2)))
  {
    hide PieceText;
  }

  // ---- and pairs that were encoded ----

  function EncodedPair(kv: (Text, Text)): Piece { Both(Encode(kv.0), Encode(kv.1)) }

  function EncodedPairs(pairs: seq<(Text, Text)>): (pieces: seq<Piece>)
    ensures |pieces| == |pairs| && forall i :: 0 <= i < |pairs| ==> pieces[i] == EncodedPair(pairs[i])
  {
    if pairs == [] then [] else [EncodedPair(pairs[0])] + EncodedPairs(pairs[1..])
  }

  lemma EncodedPairReads(kv: (Text, Text), s1: Byte, s2: Byte)
    requires Separator(s1) && Separator(s2) && s1 != s2
    ensures var p := EncodedPair(kv);
            && PieceOk(p, s1, s2) && Meaning(p) == kv && PieceText(p, s1) != []
            && (s1 != SPACE ==> NoGap(PieceText(p, s1)) && SPACE !in PieceText(p, s1))
  {
    EncodeAvoids(kv.0, s1);
    EncodeAvoids(kv.0, s2);
    EncodeAvoids(kv.1, s2);
    EncodeAvoids(kv.0, SPACE);
    EncodeAvoids(kv.1, SPACE);
    EncodedDecodes(kv.0);
    EncodedDecodes(kv.1);
    hide Encode;
    hide Decode;
  }

  lemma {:induction false} EncodedPairsMean(pairs: seq<(Text, Text)>)
    ensures Meanings(EncodedPairs(pairs)) == pairs
  {
    if pairs != [] {
      EncodedPairReads(pairs[0], 38, 61);
      hide EncodedPair;
      hide Meaning;
      EncodedPairsMean(pairs[1..]);
      assert EncodedPairs(pairs)[1..] == EncodedPairs(pairs[1..]);
      assert pairs == [pairs[0]] + pairs[1..];
    }
  }

  lemma EncodedPairsAreReadable(pairs: seq<(Text, Text)>, s1: Byte, s2: Byte)
    requires Separator(s1) && Separator(s2) && s1 != s2 && s1 != SPACE
    ensures Readable(EncodedPairs(pairs), s1, s2)
  {
    hide EncodedPair;
    hide PieceOk;
    hide PieceText;
    hide Meaning;
    var pieces := EncodedPairs(pairs);
    forall i | 0 <= i < |pieces|
      ensures PieceOk(pieces[i], s1, s2) && PieceText(pieces[i], s1) != []
      ensures NoGap(PieceText(pieces[i], s1) + [s2])
    {
      EncodedPairReads(pairs[i], s1, s2);
    }
  }

  /** Joined encoded pairs are parsed back to the map of the pairs, the last of a name winning. */
  lemma JoinReadsBack(pairs: seq<(Text, Text)>, gaps: seq<nat>, s1: Byte, s2: Byte, m: map<Text, Text>)
    requires |gaps| == |pairs|
    requires Separator(s1) && Separator(s2) && s1 != s2 && s1 != SPACE
    ensures Parse(Join(EncodedPairs(pairs), gaps, s1, s2), s1, s2, m) == PutAll(m, pairs)
  {
    hide Parse;
    hide Readable;
    EncodedPairsAreReadable(pairs, s1, s2);
    PiecesReadBack(EncodedPairs(pairs), gaps, s1, s2, m);
    EncodedPairsMean(pairs);
  }

  lemma ParseNothing(s1: Byte, s2: Byte, m: map<Text, Text>)
    ensures Parse([], s1, s2, m) == m
  {
  }

  /** A name that is not among the pairs is untouched. */
  lemma {:induction false} PutAllKeeps(m: map<Text, Text>, pairs: seq<(Text, Text)>, k: Text)
    requires forall i :: 0 <= i < |pairs| ==> pairs[i].0 != k
    ensures k in PutAll(m, pairs) <==> k in m
    ensures k in m ==> PutAll(m, pairs)[k] == m[k]
    decreases |pairs|
  {
    if pairs != [] {
      PutAllKeeps(Put(m, pairs[0]), pairs[1..], k);
    }
  }

  /** A name among the pairs has the value of the last of them. */
  lemma {:induction false} PutAllSets(m: map<Text, Text>, pairs: seq<(Text, Text)>, i: nat)
    requires i < |pairs| && forall j :: i < j < |pairs| ==> pairs[j].0 != pairs[i].0
    ensures pairs[i].0 in PutAll(m, pairs) && PutAll(m, pairs)[pairs[i].0] == pairs[i].1
    decreases |pairs|
  {
    if i == 0 {
      PutAllKeeps(Put(m, pairs[0]), pairs[1..], pairs[0].0);
    } else {
      PutAllSets(Put(m, pairs[0]), pairs[1..], i - 1);
    }
  }

  /** The map the parser adds to. */
  class HttpMap {
    var entries: map<Text, Text>

    constructor ()
      ensures entries == map[]
    {
      entries := map[];
    }

    method Add(key: Text, value: Text)
      modifies this
      ensures entries == old(entries)[key := value]
    {
      entries := entries[key := value];
    }
  }

  /** The text ends in a separator and nothing but spaces. */
  predicate EndsBlank(s: Text, s2: Byte) {
    exists i :: 0 <= i < |s| && s[i] == s2 && forall j :: i < j < |s| ==> s[j] == SPACE
  }

  /**
   The byte behind the text, which the loop over spaces reads when the text ends blank,
   must then not be a space too: the code would run on behind it.
   */
  predicate Bounded(s: Text, s2: Byte, behind: Byte) { behind != SPACE || !EndsBlank(s, s2) }

  lemma BoundedRest(s: Text, n: nat, s2: Byte, behind: Byte)
    requires Bounded(s, s2, behind) && n <= |s|
    ensures Bounded(s[n..], s2, behind)
  {
    if EndsBlank(s[n..], s2) {
      var i :| 0 <= i < |s[n..]| && s[n..][i] == s2 && forall j :: i < j < |s[n..]| ==> s[n..][j] == SPACE;
      assert s[n + i] == s2;
      assert forall j :: n + i < j < |s| ==> s[j] == s[n..][j - n];
      assert EndsBlank(s, s2);
    }
  }

  /** The turns of the parser, as far as the loop over spaces: does one of them pass the end of the text? */
  predicate RunsOn(s: Text, s2: Byte, behind: Byte)
    decreases |s|
  {
    var pos := Find(s, s2);
    pos < |s| && var next := pos + 1 + Spaces(s[pos + 1..]);
    if next == |s| then behind == SPACE else RunsOn(s[next..], s2, behind)
  }

  /** It stays inside the text exactly when that is bounded. */
  lemma {:induction false} RunsOnExactly(s: Text, s2: Byte, behind: Byte)
    ensures RunsOn(s, s2, behind) <==> !Bounded(s, s2, behind)
    decreases |s|
  {
    hide Spaces;
    hide EndsBlank;
    var pos := Find(s, s2);
    FirstIs(s, s2);
    hide Find;
    if pos == |s| {
      NeverBlank(s, s2);
    } else {
      var next := SpacesBehind(s, pos);
      if next < |s| {
        RunsOnExactly(s[next..], s2, behind);
        EndsBlankRest(s, pos, next, s2);
      } else {
        AllBlank(s, pos, s2);
      }
    }
  }

  lemma FirstIs(s: Text, c: Byte)
    ensures var n := Find(s, c);
            n <= |s| && (n < |s| ==> s[n] == c) && forall j :: 0 <= j < n ==> s[j] != c
  {
    var n := Find(s, c);
    assert forall j :: 0 <= j < n ==> s[j] == s[..n][j] && s[j] in s[..n];
  }

  lemma NeverBlank(s: Text, s2: Byte)
    requires forall j :: 0 <= j < |s| ==> s[j] != s2
    ensures !EndsBlank(s, s2)
  {
  }

  lemma AllBlank(s: Text, pos: nat, s2: Byte)
    requires pos < |s| && s[pos] == s2 && forall j :: pos < j < |s| ==> s[j] == SPACE
    ensures EndsBlank(s, s2)
  {
  }

  lemma SpacesBehind(s: Text, pos: nat) returns (next: nat)
    requires pos < |s|
    ensures pos < next <= |s| && next == pos + 1 + Spaces(s[pos + 1..])
    ensures (forall j :: pos < j < next ==> s[j] == SPACE) && (next < |s| ==> s[next] != SPACE)
  {
    var r := s[pos + 1..];
    SpacesAre(r);
    next := pos + 1 + Spaces(r);
    assert forall j :: pos < j < |s| ==> s[j] == r[j - pos - 1];
  }

  lemma {:induction false} SpacesAre(r: Text)
    ensures forall j :: 0 <= j < Spaces(r) ==> r[j] == SPACE
    ensures Spaces(r) < |r| ==> r[Spaces(r)] != SPACE
  {
    if r != [] && r[0] == SPACE {
      SpacesAre(r[1..]);
      assert forall j :: 1 <= j < |r| ==> r[j] == r[1..][j - 1];
    }
  }

  lemma EndsBlankRest(s: Text, pos: nat, next: nat, s2: Byte)
    requires pos < next < |s| && s[next] != SPACE && forall j :: 0 <= j < pos ==> s[j] != s2
    ensures EndsBlank(s, s2) <==> EndsBlank(s[next..], s2)
  {
    assert forall j :: next <= j < |s| ==> s[j] == s[next..][j - next];
    if EndsBlank(s, s2) {
      var i :| 0 <= i < |s| && s[i] == s2 && forall j :: i < j < |s| ==> s[j] == SPACE;
      assert s[next..][i - next] == s2;
    }
    if EndsBlank(s[next..], s2) {
      var i :| 0 <= i < |s[next..]| && s[next..][i] == s2 && forall j :: i < j < |s[next..]| ==> s[next..][j] == SPACE;
      assert s[next + i] == s2;
    }
  }

  method ParseKeyValue(text: Text, behind: Byte, s1: Byte, s2: Byte, c: HttpMap)
    requires Bounded(text, s2, behind)
    modifies c
    ensures c.entries == Parse(text, s1, s2, old(c.entries))
  {
    hide Find;
    hide Spaces;
    hide Decode;
    hide Bounded;
    var s := text;
    while s != []
      invariant Parse(s, s1, s2, c.entries) == Parse(text, s1, s2, old(c.entries))
      invariant Bounded(s, s2, behind)
      decreases |s|
    {
      var pos := Find(s, s2);
      var kv := s[..pos];
      var pos2 := Find(kv, s1);
      var key := UrlDecode(if pos2 == |kv| then kv else kv[..pos2]);
      var value := UrlDecode(if pos2 == |kv| then kv else kv[pos2 + 1..]);
      c.Add(key, value);
      if pos == |s| {
        BoundedRest(s, |s|, s2, behind);
        s := s[|s|..];
      } else {
        pos := SkipSpaces(s, pos, s2, behind);
        BoundedRest(s, pos + 1, s2, behind);
        s := s[pos + 1..];
      }
    }
  }

  /** The loop over spaces, which looks past the piece, and one byte past the text when that ends blank. */
  method SkipSpaces(s: Text, pos: nat, s2: Byte, behind: Byte) returns (p: nat)
    requires pos < |s| && s[pos] == s2 && Bounded(s, s2, behind)
    ensures p < |s| && p == pos + Spaces(s[pos + 1..])
  {
    p := pos;
    while (if p + 1 < |s| then s[p + 1] else behind) == SPACE
      invariant pos <= p < |s| && p - pos + Spaces(s[p + 1..]) == Spaces(s[pos + 1..])
      invariant forall j :: pos < j <= p ==> s[j] == SPACE
      decreases |s| - p
    {
      assert p + 1 == |s| ==> EndsBlank(s, s2);
      assert s[p + 1..][1..] == s[p + 2..];
      p := p + 1;
    }
  }

  lemma NotBlank(front: Text, p: Text, s2: Byte)
    requires p != [] && s2 !in p && SPACE !in p
    ensures !EndsBlank(front + p, s2)
  {
    var s := front + p;
    assert forall i :: |front| <= i < |s| ==> s[i] == p[i - |front|] && s[i] in p;
    forall i | 0 <= i < |s| && s[i] == s2
      ensures exists j :: i < j < |s| && s[j] != SPACE
    {
      assert s[|s| - 1] == p[|p| - 1] && i < |s| - 1;
    }
  }

  /** Joined text ends in its last piece. */
  lemma {:induction false} JoinEnds(pieces: seq<Piece>, gaps: seq<nat>, s1: Byte, s2: Byte) returns (front: Text)
    requires |gaps| == |pieces| > 0
    ensures Join(pieces, gaps, s1, s2) == front + PieceText(pieces[|pieces| - 1], s1)
    decreases |pieces|
  {
    hide PieceText;
    if |pieces| == 1 {
      front := [];
    } else {
      var inner := JoinEnds(pieces[1..], gaps[1..], s1, s2);
      front := PieceText(pieces[0], s1) + [s2] + Blank(gaps[0]) + inner;
    }
  }

  /** Joined pairs never end blank, so it does not matter what is behind them. */
  lemma JoinIsBounded(pairs: seq<(Text, Text)>, gaps: seq<nat>, s1: Byte, s2: Byte, behind: Byte)
    requires |gaps| == |pairs|
    requires Separator(s1) && Separator(s2) && s1 != s2 && s1 != SPACE
    ensures Bounded(Join(EncodedPairs(pairs), gaps, s1, s2), s2, behind)
  {
    if pairs != [] {
      var pieces := EncodedPairs(pairs);
      var front := JoinEnds(pieces, gaps, s1, s2);
      var last := pairs[|pairs| - 1];
      EncodedPairReads(last, s1, s2);
      PieceSplits(EncodedPair(last), s1, s2);
      NotBlank(front, PieceText(EncodedPair(last), s1), s2);
    }
  }

  /** So the loop parses joined text whatever is behind it. */
  method ParseJoined(pairs: seq<(Text, Text)>, gaps: seq<nat>, behind: Byte, s1: Byte, s2: Byte, c: HttpMap)
    requires |gaps| == |pairs|
    requires Separator(s1) && Separator(s2) && s1 != s2 && s1 != SPACE
    modifies c
    ensures c.entries == PutAll(old(c.entries), pairs)
  {
    JoinIsBounded(pairs, gaps, s1, s2, behind);
    JoinReadsBack(pairs, gaps, s1, s2, c.entries);
    ParseKeyValue(Join(EncodedPairs(pairs), gaps, s1, s2), behind, s1, s2, c);
  }
}
