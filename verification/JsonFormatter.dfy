/** The two printers of libjson: the indenting formatter and the compact `toString`. */
module JsonFormatter {
  import opened Common
  import opened JsonUtil
  import opened JsonValue

  /** How a tree is laid out. The compact printer knows neither indent nor escapes. */
  datatype Style = Pretty(indent: nat, escape: bool, mode: Mode) | Compact

  function Spaces(n: nat): string { seq(n, _ => ' ') }

  function Pad(style: Style, depth: nat): string {
    match style
    case Pretty(indent, _, _) => Spaces(depth * indent)
    case Compact => ""
  }

  function Newline(style: Style): string { if style.Pretty? then "\n" else "" }

  function ColonText(style: Style): string { if style.Pretty? then ": " else ":" }

  function DigitOf(d: nat): char
    requires d < 10
  {
    "0123456789"[d]
  }

  function NatText(n: nat): string {
    if n < 10 then [DigitOf(n)] else NatText(n / 10) + [DigitOf(n % 10)]
  }

  /** `toStr<int>`. */
  function IntText(n: int): string {
    if n < 0 then "-" + NatText(-n) else NatText(n)
  }

  /** The text between the quotes, or the exception of `escape_string`. */
  function StringBody(s: JsonString, style: Style): Result<string> {
    match style
    case Compact => Ok(s.value)
    case Pretty(_, escape, mode) =>
      if escape && !s.isEscaped then Escape(s.value, mode)
      else if !escape && s.isEscaped then Ok(Unescape(s.value))
      else Ok(s.value)
  }

  function StringText(s: JsonString, style: Style): string {
    var body := StringBody(s, style);
    "\"" + (if body.Ok? then body.value else "") + "\""
  }

  /** Printing `v` throws: some string in it cannot be escaped. */
  predicate Throws(v: Json, style: Style)
    decreases v
  {
    match v
    case JString(s) => StringBody(s, style).Err?
    case JArray(es) => exists i :: 0 <= i < |es| && Throws(es[i], style)
    case JObject(ms) => exists i :: 0 <= i < |ms| && MemberThrows(ms[i], style)
    case _ => false
  }

  predicate MemberThrows(m: Member, style: Style)
    decreases m
  {
    StringBody(m.key, style).Err? || Throws(m.value, style)
  }

  /** No null pointer anywhere: printing one would dereference it. */
  predicate Whole(v: Json)
    decreases v
  {
    match v
    case Missing => false
    case JArray(es) => forall i :: 0 <= i < |es| ==> Whole(es[i])
    case JObject(ms) => forall i :: 0 <= i < |ms| ==> WholeMember(ms[i])
    case _ => true
  }

  predicate WholeMember(m: Member)
    decreases m
  {
    Whole(m.value)
  }

  function ScalarText(v: Json, style: Style): string {
    match v
    case JNull => "null"
    case JBool(b) => if b then "true" else "false"
    case JInt(n) => IntText(n)
    case JFloat(d) => d
    case JString(s) => StringText(s, style)
    case _ => ""
  }

  /** A value whose children stand at `depth`. */
  function Text(v: Json, depth: nat, style: Style): string
    requires depth > 0
    decreases v, 1
  {
    match v
    case JArray(es) => ArrayText(es, depth, es == [], style)
    case JObject(ms) => ObjectText(ms, depth, ms == [], style)
    case _ => ScalarText(v, style)
  }

  function ArrayText(es: seq<Json>, depth: nat, empty: bool, style: Style): string
    requires depth > 0
    decreases es, 1
  {
    "[" + (if es == [] then "" else Newline(style)) + ItemsText(es, depth, style)
    + (if empty then "" else Pad(style, depth - 1)) + "]"
  }

  function ItemsText(es: seq<Json>, depth: nat, style: Style): string
    requires depth > 0
    decreases es, 0
  {
    if es == [] then ""
    else Pad(style, depth) + Text(es[0], depth + 1, style) + (if |es| > 1 then "," else "")
         + Newline(style) + ItemsText(es[1..], depth, style)
  }

  function ObjectText(ms: seq<Member>, depth: nat, empty: bool, style: Style): string
    requires depth > 0
    decreases ms, 1
  {
    "{" + (if ms == [] then "" else Newline(style)) + PairsText(ms, depth, style)
    + (if empty then "" else Pad(style, depth - 1)) + "}"
  }

  function PairsText(ms: seq<Member>, depth: nat, style: Style): string
    requires depth > 0
    decreases ms, 0
  {
    if ms == [] then ""
    else Pad(style, depth) + PairText(ms[0], depth, style) + (if |ms| > 1 then "," else "")
         + Newline(style) + PairsText(ms[1..], depth, style)
  }

  function PairText(m: Member, depth: nat, style: Style): string
    requires depth > 0
    decreases m
  {
    StringText(m.key, style) + ColonText(style) + Text(m.value, depth + 1, style)
  }

  /** `format`: the whole text of a root container. */
  function FormatText(root: Json, indent: int, escape: bool, mode: Mode): string {
    if indent <= 0 then Text(root, 1, Compact)
    else
      match root
      case JArray(es) => ArrayText(es, 1, false, Pretty(indent, escape, mode))
      case JObject(ms) => ObjectText(ms, 1, false, Pretty(indent, escape, mode))
      case _ => ""
  }

  /** What one turn of the element loop writes, at position `i`. */
  function ItemLine(es: seq<Json>, i: nat, depth: nat, style: Style): string
    requires depth > 0 && i < |es|
  {
    Pad(style, depth) + Text(es[i], depth + 1, style) + (if i + 1 < |es| then "," else "") + Newline(style)
  }

  lemma ItemsFrom(es: seq<Json>, i: nat, depth: nat, style: Style, written: string)
    requires depth > 0 && i < |es|
    ensures written + ItemsText(es[i..], depth, style)
         == written + ItemLine(es, i, depth, style) + ItemsText(es[i + 1..], depth, style)
  {
    assert es[i..][1..] == es[i + 1..];
  }

  /** What one turn of the member loop writes, at position `i`. */
  function PairLine(ms: seq<Member>, i: nat, depth: nat, style: Style): string
    requires depth > 0 && i < |ms|
  {
    Pad(style, depth) + PairText(ms[i], depth, style) + (if i + 1 < |ms| then "," else "") + Newline(style)
  }

  lemma PairsFrom(ms: seq<Member>, i: nat, depth: nat, style: Style, written: string)
    requires depth > 0 && i < |ms|
    ensures written + PairsText(ms[i..], depth, style)
         == written + PairLine(ms, i, depth, style) + PairsText(ms[i + 1..], depth, style)
  {
    assert ms[i..][1..] == ms[i + 1..];
  }

  lemma Regroup(o: string, a: string, b: string, c: string, d: string, e: string)
    ensures o + (a + b + c + d + e) == o + a + b + c + d + e
  {
  }

  lemma PairRegroup(o: string, a: string, b: string, c: string)
    ensures o + (a + b + c) == o + a + b + c
  {
  }

  lemma ItemsTextNothing(es: seq<Json>, depth: nat, style: Style)
    requires depth > 0
    ensures es[0..] == es && "" + ItemsText(es, depth, style) == ItemsText(es, depth, style)
    ensures ItemsText(es[|es|..], depth, style) == ""
  {
  }

  lemma PairsTextNothing(ms: seq<Member>, depth: nat, style: Style)
    requires depth > 0
    ensures ms[0..] == ms && "" + PairsText(ms, depth, style) == PairsText(ms, depth, style)
    ensures PairsText(ms[|ms|..], depth, style) == ""
  {
  }

  /** The formatter; `fmt` is its output stream. */
  class JsonFormatter {
    const indent: int
    const escape: bool
    const mode: Mode
    var fmt: string

    constructor (indent: int, escape: bool, mode: Mode)
      ensures this.indent == indent && this.escape == escape && this.mode == mode && fmt == ""
    {
      this.indent, this.escape, this.mode := indent, escape, mode;
      fmt := "";
    }

    function Layout(): Style
      requires indent > 0
    {
      Pretty(indent, escape, mode)
    }

    method AppendSpaceCharacter(c: nat)
      modifies this
      ensures fmt == old(fmt) + Spaces(c)
    {
      for i := 0 to c
        invariant fmt == old(fmt) + Spaces(i)
      {
        assert Spaces(i) + [' '] == Spaces(i + 1);
        fmt := fmt + " ";
      }
    }

    method AppendPad(depth: nat)
      requires indent > 0
      modifies this
      ensures fmt == old(fmt) + Pad(Layout(), depth)
    {
      AppendSpaceCharacter(depth * indent);
    }

    lemma Quoted(before: string, body: string)
      ensures before + "\"" + body + "\"" == before + ("\"" + body + "\"")
    {
    }

    /** `JsonString::toString(escape)`. */
    method AppendString(s: JsonString) returns (ok: bool)
      requires indent > 0
      modifies this
      ensures ok <==> StringBody(s, Layout()).Ok?
      ensures ok ==> fmt == old(fmt) + StringText(s, Layout())
    {
      hide Escape;
      hide Unescape;
      var ss := s.value;
      if escape {
        if !s.isEscaped {
          var r := EscapeString(ss, mode);
          if r.Err? {
            return false;
          }
          ss := r.value;
        }
      } else if s.isEscaped {
        ss := UnescapeString(ss);
      }
      Quoted(fmt, ss);
      fmt := fmt + "\"" + ss + "\"";
      ok := true;
    }

    /** A value inside a container whose children stand at `depth`. */
    method AppendValue(v: Json, depth: nat) returns (ok: bool)
      requires indent > 0 && depth > 0 && Whole(v)
      modifies this
      ensures ok <==> !Throws(v, Layout())
      ensures ok ==> fmt == old(fmt) + Text(v, depth + 1, Layout())
      decreases v, 2
    {
      if v.JArray? {
        ok := FormatArray(depth + 1, v.elements, v.elements == []);
      } else if v.JObject? {
        ok := FormatObject(depth + 1, v.members, v.members == []);
      } else if v.JString? {
        ok := AppendString(v.s);
      } else {
        fmt := fmt + ScalarText(v, Layout());
        ok := true;
      }
    }

    /** One `key: value`. */
    method AppendPair(m: Member, depth: nat) returns (ok: bool)
      requires indent > 0 && depth > 0 && WholeMember(m)
      modifies this
      ensures ok <==> !MemberThrows(m, Layout())
      ensures ok ==> fmt == old(fmt) + PairText(m, depth, Layout())
      decreases m, 3
    {
      hide StringText;
      hide Text;
      hide Throws;
      hide StringBody;
      ghost var before, style := fmt, Layout();
      ok := AppendString(m.key);
      if ok {
        fmt := fmt + ": ";
        ok := AppendValue(m.value, depth);
        PairRegroup(before, StringText(m.key, style), ": ", Text(m.value, depth + 1, style));
      }
    }

    /** One turn of the loop in `FormatArray`. */
    method AppendItemLine(es: seq<Json>, pos: nat, depth: nat) returns (ok: bool)
      requires indent > 0 && depth > 0 && pos < |es| && Whole(es[pos])
      modifies this
      ensures ok <==> !Throws(es[pos], Layout())
      ensures ok ==> fmt == old(fmt) + ItemLine(es, pos, depth, Layout())
      decreases es, 0
    {
      hide Text;
      hide Pad;
      ghost var style := Layout();
      AppendPad(depth);
      ok := AppendValue(es[pos], depth);
      if !ok {
        return;
      }
      ghost var comma := if pos + 1 < |es| then "," else "";
      if pos + 1 < |es| {
        fmt := fmt + ",";
      }
      fmt := fmt + "\n";
      Regroup(old(fmt), Pad(style, depth), Text(es[pos], depth + 1, style), comma, "\n", "");
    }

    /** `recursive_formatter` for an array. */
    method FormatArray(depth: nat, es: seq<Json>, empty: bool) returns (ok: bool)
      requires indent > 0 && depth > 0 && forall i :: 0 <= i < |es| ==> Whole(es[i])
      modifies this
      ensures ok <==> !Throws(JArray(es), Layout())
      ensures ok ==> fmt == old(fmt) + ArrayText(es, depth, empty, Layout())
      decreases es, 1
    {
      hide Text;
      hide ItemsText;
      hide ItemLine;
      hide Pad;
      ghost var style := Layout();
      fmt := fmt + "[";
      ghost var head, written := fmt, "";
      var pos := 0;
      var once := false;
      ItemsTextNothing(es, depth, style);
      while pos < |es|
        invariant 0 <= pos <= |es| && once == (pos > 0)
        invariant forall i :: 0 <= i < pos ==> !Throws(es[i], style)
        invariant head == old(fmt) + "[" + (if once then "\n" else "")
        invariant fmt == head + written
        invariant written + ItemsText(es[pos..], depth, style) == ItemsText(es, depth, style)
      {
        if !once {
          fmt := fmt + "\n";
          once := true;
          head := fmt;
        }
        ItemsFrom(es, pos, depth, style, written);
        ok := AppendItemLine(es, pos, depth);
        if !ok {
          return;
        }
        written := written + ItemLine(es, pos, depth, style);
        pos := pos + 1;
      }
      assert written == ItemsText(es, depth, style);
      if !empty {
        AppendPad(depth - 1);
      }
      fmt := fmt + "]";
      Regroup(old(fmt), "[", if es == [] then "" else "\n", ItemsText(es, depth, style),
              if empty then "" else Pad(style, depth - 1), "]");
      ok := true;
    }

    /** One turn of the loop in `FormatObject`. */
    method AppendPairLine(ms: seq<Member>, pos: nat, depth: nat) returns (ok: bool)
      requires indent > 0 && depth > 0 && pos < |ms| && WholeMember(ms[pos])
      modifies this
      ensures ok <==> !MemberThrows(ms[pos], Layout())
      ensures ok ==> fmt == old(fmt) + PairLine(ms, pos, depth, Layout())
      decreases ms, 0
    {
      hide PairText;
      hide Pad;
      ghost var style := Layout();
      AppendPad(depth);
      ok := AppendPair(ms[pos], depth);
      if !ok {
        return;
      }
      ghost var comma := if pos + 1 < |ms| then "," else "";
      if pos + 1 < |ms| {
        fmt := fmt + ",";
      }
      fmt := fmt + "\n";
      Regroup(old(fmt), Pad(style, depth), PairText(ms[pos], depth, style), comma, "\n", "");
    }

    /** `recursive_formatter` for an object. */
    method FormatObject(depth: nat, ms: seq<Member>, empty: bool) returns (ok: bool)
      requires indent > 0 && depth > 0 && forall i :: 0 <= i < |ms| ==> WholeMember(ms[i])
      modifies this
      ensures ok <==> !Throws(JObject(ms), Layout())
      ensures ok ==> fmt == old(fmt) + ObjectText(ms, depth, empty, Layout())
      decreases ms, 1
    {
      hide PairText;
      hide PairsText;
      hide PairLine;
      hide Pad;
      ghost var style := Layout();
      fmt := fmt + "{";
      ghost var head, written := fmt, "";
      var pos := 0;
      var once := false;
      PairsTextNothing(ms, depth, style);
      while pos < |ms|
        invariant 0 <= pos <= |ms| && once == (pos > 0)
        invariant forall i :: 0 <= i < pos ==> !MemberThrows(ms[i], style)
        invariant head == old(fmt) + "{" + (if once then "\n" else "")
        invariant fmt == head + written
        invariant written + PairsText(ms[pos..], depth, style) == PairsText(ms, depth, style)
      {
        if !once {
          fmt := fmt + "\n";
          once := true;
          head := fmt;
        }
        PairsFrom(ms, pos, depth, style, written);
        ok := AppendPairLine(ms, pos, depth);
        if !ok {
          return;
        }
        written := written + PairLine(ms, pos, depth, style);
        pos := pos + 1;
      }
      assert written == PairsText(ms, depth, style);
      if !empty {
        AppendPad(depth - 1);
      }
      fmt := fmt + "}";
      Regroup(old(fmt), "{", if ms == [] then "" else "\n", PairsText(ms, depth, style),
              if empty then "" else Pad(style, depth - 1), "}");
      ok := true;
    }

    /** `format`, with the source set to `root`; false stands for the exception. */
    method Format(root: Json) returns (ok: bool)
      requires IsContainer(root) && Whole(root)
      modifies this
      ensures indent <= 0 ==> ok
      ensures indent > 0 ==> (ok <==> !Throws(root, Layout()))
      ensures ok ==> fmt == FormatText(root, indent, escape, mode)
    {
      fmt := "";
      if indent <= 0 {
        fmt := ToString(root, 1);
        ok := true;
      } else if root.JArray? {
        ok := FormatArray(1, root.elements, false);
      } else {
        ok := FormatObject(1, root.members, false);
      }
    }
  }

  /** The compact printer: `toString` of every kind of node. Nothing in it depends on the depth. */
  method ToString(v: Json, ghost depth: nat) returns (s: string)
    requires depth > 0 && Whole(v)
    ensures s == Text(v, depth, Compact)
    decreases v, 1
  {
    if v.JArray? {
      s := ArrayToString(v.elements, depth);
    } else if v.JObject? {
      s := ObjectToString(v.members, depth);
    } else {
      s := ScalarText(v, Compact);
    }
  }

  /** `JsonArray::toString`. */
  method ArrayToString(es: seq<Json>, ghost depth: nat) returns (s: string)
    requires depth > 0 && forall i :: 0 <= i < |es| ==> Whole(es[i])
    ensures s == ArrayText(es, depth, es == [], Compact)
    decreases es, 0
  {
    hide Text;
    hide ItemsText;
    s := "[";
    ghost var written := "";
    ItemsTextNothing(es, depth, Compact);
    for index := 0 to |es|
      invariant s == "[" + written
      invariant written + ItemsText(es[index..], depth, Compact) == ItemsText(es, depth, Compact)
    {
      ItemsFrom(es, index, depth, Compact, written);
      var item := ToString(es[index], depth + 1);
      s := s + item;
      if index + 1 < |es| {
        s := s + ",";
      }
      Regroup("[" + written, "", Text(es[index], depth + 1, Compact),
              if index + 1 < |es| then "," else "", "", "");
      written := written + ItemLine(es, index, depth, Compact);
    }
    s := s + "]";
    Regroup("", "[", "", ItemsText(es, depth, Compact), "", "]");
  }

  /** `JsonObject::toString`. */
  method ObjectToString(ms: seq<Member>, ghost depth: nat) returns (s: string)
    requires depth > 0 && forall i :: 0 <= i < |ms| ==> WholeMember(ms[i])
    ensures s == ObjectText(ms, depth, ms == [], Compact)
    decreases ms, 0
  {
    hide PairText;
    hide PairsText;
    s := "{";
    ghost var written := "";
    PairsTextNothing(ms, depth, Compact);
    for index := 0 to |ms|
      invariant s == "{" + written
      invariant written + PairsText(ms[index..], depth, Compact) == PairsText(ms, depth, Compact)
    {
      PairsFrom(ms, index, depth, Compact, written);
      var pair := PairToString(ms[index], depth);
      s := s + pair;
      if index + 1 < |ms| {
        s := s + ",";
      }
      Regroup("{" + written, "", PairText(ms[index], depth, Compact),
              if index + 1 < |ms| then "," else "", "", "");
      written := written + PairLine(ms, index, depth, Compact);
    }
    s := s + "}";
    Regroup("", "{", "", PairsText(ms, depth, Compact), "", "}");
  }

  method PairToString(m: Member, ghost depth: nat) returns (s: string)
    requires depth > 0 && WholeMember(m)
    ensures s == PairText(m, depth, Compact)
    decreases m, 2
  {
    var value := ToString(m.value, depth + 1);
    s := "\"" + m.key.value + "\"" + ":" + value;
  }
}
