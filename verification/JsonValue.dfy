/** JSON trees, as the parser builds them and the printers read them, and their tokens. */
module JsonValue {
  import opened JsonLexer

  /** A string node; `isEscaped` says that escapes in it have been resolved. */
  datatype JsonString = JsonString(value: string, isEscaped: bool)

  datatype Member = Member(key: JsonString, value: Json)

  /** `Missing` is the null pointer the parser adds to an array for a stray `}` or `:`. */
  datatype Json =
    | JNull
    | JBool(b: bool)
    | JInt(n: int)
    | JFloat(digits: string)
    | JString(s: JsonString)
    | JArray(elements: seq<Json>)
    | JObject(members: seq<Member>)
    | Missing

  predicate IsContainer(v: Json) { v.JArray? || v.JObject? }

  /** No node is missing, and every string carries the flag the lexer gives it. */
  ghost predicate Clean(v: Json, escape: bool)
    decreases v
  {
    match v
    case Missing => false
    case JString(s) => s.isEscaped == escape
    case JArray(es) => CleanAll(es, escape)
    case JObject(ms) => CleanMembers(ms, escape)
    case _ => true
  }

  ghost predicate CleanAll(es: seq<Json>, escape: bool)
    decreases es
  {
    es == [] || (Clean(es[0], escape) && CleanAll(es[1..], escape))
  }

  ghost predicate CleanMembers(ms: seq<Member>, escape: bool)
    decreases ms
  {
    ms == [] || (CleanMember(ms[0], escape) && CleanMembers(ms[1..], escape))
  }

  ghost predicate CleanMember(m: Member, escape: bool)
    decreases m
  {
    m.key.isEscaped == escape && Clean(m.value, escape)
  }

  /** The token list of a tree: what RFC 8259, sections 4 and 5, writes for it. */
  function TokensOf(v: Json): seq<Token>
    decreases v
  {
    match v
    case JNull => [Null]
    case JBool(b) => [if b then True else False]
    case JInt(n) => [Num(n)]
    case JFloat(d) => [Float(d)]
    case JString(s) => [Str(s.value)]
    case JArray(es) => [ArrayBegin] + Items(es) + [ArrayEnd]
    case JObject(ms) => [ObjectBegin] + Pairs(ms) + [ObjectEnd]
    case Missing => []
  }

  function Items(es: seq<Json>): seq<Token>
    decreases es, 0
  {
    if es == [] then [] else TokensOf(es[0]) + MoreItems(es[1..])
  }

  /** The items after the first, each behind its comma. */
  function MoreItems(es: seq<Json>): seq<Token>
    decreases es, 1
  {
    if es == [] then [] else [Comma] + Items(es)
  }

  function Pairs(ms: seq<Member>): seq<Token>
    decreases ms, 0
  {
    if ms == [] then [] else PairTokens(ms[0]) + MorePairs(ms[1..])
  }

  function PairTokens(m: Member): seq<Token>
    decreases m
  {
    [Str(m.key.value), Colon] + TokensOf(m.value)
  }

  function MorePairs(ms: seq<Member>): seq<Token>
    decreases ms, 1
  {
    if ms == [] then [] else [Comma] + Pairs(ms)
  }
}
