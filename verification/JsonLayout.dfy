/** How the formatter's text stands on the page, read off the text alone. */
module JsonLayout {
  import opened Common
  import opened JsonUtil
  import opened JsonLexer
  import opened JsonValue
  import opened JsonFormatter
  import opened JsonRoundTrip

  predicate Opens(c: char) { c == '[' || c == '{' }

  predicate Closes(c: char) { c == ']' || c == '}' }

  function Blanks(s: string): (n: nat)
    ensures n <= |s|
  {
    if s == [] || s[0] != ' ' then 0 else 1 + Blanks(s[1..])
  }

  /**
   Outside strings, every line begins with `indent` blanks for each container that is open
   there, not counting one that the line begins by closing; a line ends behind every comma
   and behind every opener but that of an empty container, whose closer follows at once; any
   other closer begins a line. `level` are open already, and `start` says that a closer may follow.
   */
  predicate Indented(s: string, level: nat, start: bool, indent: nat)
    decreases |s|
  {
    if s == [] then true
    else if s[0] == '\n' then
      var n := Blanks(s[1..]);
      var rest := s[1 + n..];
      && n == indent * (if rest != [] && Closes(rest[0]) && level > 0 then level - 1 else level)
      && Indented(rest, level, true, indent)
    else if s[0] == ',' then s[1..] != [] && s[1] == '\n' && Indented(s[1..], level, false, indent)
    else if Opens(s[0]) then
      s[1..] != [] && (s[1] == '\n' || Closes(s[1])) && Indented(s[1..], level + 1, true, indent)
    else if Closes(s[0]) then start && level > 0 && Indented(s[1..], level - 1, false, indent)
    else if s[0] == '\"' then
      var scan := ScanString(s[1..]);
      scan.Found? && Indented(scan.rest, level, false, indent)
    else Indented(s[1..], level, false, indent)
  }

  predicate Ordinary(c: char) { c != '\n' && c != ',' && !Opens(c) && !Closes(c) && c != '\"' }

  lemma {:induction false} OrdinaryPasses(w: string, tail: string, level: nat, start: bool, indent: nat)
    requires w != [] && forall i :: 0 <= i < |w| ==> Ordinary(w[i])
    ensures Indented(w + tail, level, start, indent) <==> Indented(tail, level, false, indent)
  {
    assert (w + tail)[1..] == w[1..] + tail;
    if |w| == 1 {
      assert w[1..] + tail == tail;
    } else {
      OrdinaryPasses(w[1..], tail, level, false, indent);
    }
  }

  /** The comma behind a line that is not the last of its container. */
  lemma CommaPasses(more: bool, tail: string, level: nat, indent: nat)
    ensures Indented((if more then "," else "") + ("\n" + tail), level, false, indent)
       <==> Indented("\n" + tail, level, false, indent)
  {
    var t := "\n" + tail;
    assert ("," + t)[1..] == t && "" + t == t;
  }

  lemma {:induction false} BlanksAre(n: nat, tail: string)
    requires tail != [] ==> tail[0] != ' '
    ensures Blanks(Spaces(n) + tail) == n
  {
    if n == 0 {
      assert Spaces(n) + tail == tail;
    } else {
      assert (Spaces(n) + tail)[1..] == Spaces(n - 1) + tail;
      BlanksAre(n - 1, tail);
    }
  }

  /** A new line with its indentation. */
  lemma LinePasses(n: nat, tail: string, level: nat, start: bool, indent: nat)
    requires tail != [] && tail[0] != ' '
    requires n == indent * (if Closes(tail[0]) && level > 0 then level - 1 else level)
    ensures Indented("\n" + (Spaces(n) + tail), level, start, indent) <==> Indented(tail, level, true, indent)
  {
    var s := "\n" + (Spaces(n) + tail);
    BlanksAre(n, tail);
    assert s[1..] == Spaces(n) + tail && s[1 + n..] == tail;
  }

  lemma StringPasses(body: string, tail: string, level: nat, start: bool, indent: nat)
    requires LexicallyClosed(body)
    ensures Indented("\"" + body + "\"" + tail, level, start, indent) <==> Indented(tail, level, false, indent)
  {
    ScanClosed(body, tail);
    var s := "\"" + body + "\"" + tail;
    assert s[1..] == body + "\"" + tail;
  }

  lemma OpenPasses(c: char, tail: string, level: nat, start: bool, indent: nat)
    requires Opens(c) && tail != [] && (tail[0] == '\n' || Closes(tail[0]))
    ensures Indented([c] + tail, level, start, indent) <==> Indented(tail, level + 1, true, indent)
  {
    assert ([c] + tail)[1..] == tail;
  }

  lemma ClosePasses(c: char, tail: string, level: nat, indent: nat)
    requires Closes(c) && level > 0
    ensures Indented([c] + tail, level, true, indent) <==> Indented(tail, level - 1, false, indent)
  {
    assert ([c] + tail)[1..] == tail;
  }

  /** The text of a value begins with no blank and no closer. */
  lemma TextStarts(v: Json, depth: nat, style: Style, mode: Mode)
    requires depth > 0 && Safe(v, style, mode)
    ensures var t := Text(v, depth, style); t != [] && t[0] != ' ' && !Closes(t[0])
  {
    hide ItemsText;
    hide PairsText;
    hide Escape;
    hide LexicallyClosed;
    if v.JInt? {
      NatTextDigits(if v.n < 0 then -v.n else v.n);
    }
  }

  lemma ScalarPasses(v: Json, tail: string, level: nat, start: bool, style: Style, mode: Mode)
    requires style.Pretty? && Safe(v, style, mode) && !IsContainer(v)
    ensures Indented(ScalarText(v, style) + tail, level, start, style.indent)
       <==> Indented(tail, level, false, style.indent)
  {
    hide Indented;
    hide LexicallyClosed;
    if v.JString? {
      StringPasses(StringBody(v.s, style).value, tail, level, start, style.indent);
    } else {
      if v.JInt? {
        NatTextDigits(if v.n < 0 then -v.n else v.n);
      }
      OrdinaryPasses(ScalarText(v, style), tail, level, start, style.indent);
    }
  }

  lemma {:induction false} TextPasses(v: Json, depth: nat, tail: string, start: bool, style: Style, mode: Mode)
    requires depth > 0 && style.Pretty? && Safe(v, style, mode)
    ensures Indented(Text(v, depth, style) + tail, depth - 1, start, style.indent)
       <==> Indented(tail, depth - 1, false, style.indent)
    decreases v, 2
  {
    hide Indented;
    hide ItemsText;
    hide PairsText;
    if v.JArray? {
      ArrayPasses(v.elements, depth, v.elements == [], tail, start, style, mode);
    } else if v.JObject? {
      ObjectPasses(v.members, depth, v.members == [], tail, start, style, mode);
    } else {
      ScalarPasses(v, tail, depth - 1, start, style, mode);
    }
  }

  /** What ends a container: its last line, or nothing but the closer when it is empty. */
  function Tail(empty: bool, close: char, depth: nat, style: Style, tail: string): string
    requires depth > 0
  {
    (if empty then "" else Pad(style, depth - 1)) + ([close] + tail)
  }

  lemma {:induction false} ArrayPasses(es: seq<Json>, depth: nat, empty: bool, tail: string, start: bool,
                                       style: Style, mode: Mode)
    requires depth > 0 && style.Pretty? && forall i :: 0 <= i < |es| ==> Safe(es[i], style, mode)
    requires es != [] ==> !empty
    requires es == [] ==> empty || depth == 1
    ensures Indented(ArrayText(es, depth, empty, style) + tail, depth - 1, start, style.indent)
       <==> Indented(tail, depth - 1, false, style.indent)
    decreases es, 1
  {
    hide Indented;
    hide ItemsText;
    var body := ItemsText(es, depth, style) + Tail(empty, ']', depth, style, tail);
    ArraySplits(es, depth, empty, tail, style);
    if es == [] {
      OpenPasses('[', "]" + tail, depth - 1, start, style.indent);
      ClosePasses(']', tail, depth, style.indent);
    } else {
      OpenPasses('[', "\n" + body, depth - 1, start, style.indent);
      LineAnyway(body, depth, style.indent);
      ItemsPass(es, depth, tail, style, mode);
    }
  }

  /** The last line of a container. */
  lemma EndPasses(close: char, depth: nat, tail: string, style: Style)
    requires depth > 0 && style.Pretty? && Closes(close)
    ensures Indented("\n" + Tail(false, close, depth, style, tail), depth, false, style.indent)
       <==> Indented(tail, depth - 1, false, style.indent)
  {
    hide Indented;
    hide Spaces;
    assert ([close] + tail)[0] == close;
    LinePasses((depth - 1) * style.indent, [close] + tail, depth, false, style.indent);
    ClosePasses(close, tail, depth, style.indent);
  }

  /** The line of an item or of a member, whose own text is `text`. */
  lemma BodyPasses(text: string, depth: nat, rest: string, style: Style)
    requires depth > 0 && style.Pretty? && text != [] && text[0] != ' ' && !Closes(text[0])
    ensures Indented("\n" + (Spaces(depth * style.indent) + (text + rest)), depth, false, style.indent)
       <==> Indented(text + rest, depth, true, style.indent)
  {
    hide Indented;
    hide Spaces;
    assert (text + rest)[0] == text[0];
    LinePasses(depth * style.indent, text + rest, depth, false, style.indent);
  }

  lemma LineAnyway(tail: string, level: nat, indent: nat)
    ensures Indented("\n" + tail, level, true, indent) <==> Indented("\n" + tail, level, false, indent)
  {
  }

  lemma FrameAssociates(o: string, body: string, pad: string, c: string, tail: string)
    ensures o + "\n" + body + pad + c + tail == o + ("\n" + (body + (pad + (c + tail))))
  {
  }

  lemma ArraySplits(es: seq<Json>, depth: nat, empty: bool, tail: string, style: Style)
    requires depth > 0 && style.Pretty? && (if es == [] then empty || depth == 1 else !empty)
    ensures ArrayText(es, depth, empty, style) + tail ==
            "[" + if es == [] then "]" + tail
                  else "\n" + (ItemsText(es, depth, style) + Tail(empty, ']', depth, style, tail))
  {
    var body, pad := ItemsText(es, depth, style), Pad(style, depth - 1);
    assert es == [] ==> body == "" && (empty || pad == "");
    hide ItemsText;
    hide Pad;
    if es != [] {
      assert ArrayText(es, depth, empty, style) == "[" + "\n" + body + pad + "]";
      FrameAssociates("[", body, pad, "]", tail);
    }
  }

  lemma {:induction false} ItemsPass(es: seq<Json>, depth: nat, tail: string, style: Style, mode: Mode)
    requires depth > 0 && style.Pretty? && forall i :: 0 <= i < |es| ==> Safe(es[i], style, mode)
    ensures Indented("\n" + (ItemsText(es, depth, style) + Tail(false, ']', depth, style, tail)),
                     depth, false, style.indent)
       <==> Indented(tail, depth - 1, false, style.indent)
    decreases es, 0
  {
    hide Indented;
    hide Spaces;
    hide Tail;
    var end := Tail(false, ']', depth, style, tail);
    if es == [] {
      assert ItemsText(es, depth, style) + end == end;
      EndPasses(']', depth, tail, style);
    } else {
      var more := ItemsText(es[1..], depth, style) + end;
      var comma := if |es| > 1 then "," else "";
      var text := Text(es[0], depth + 1, style);
      ItemSplits(es, depth, end, style);
      hide ItemsText;
      hide Text;
      TextStarts(es[0], depth + 1, style, mode);
      BodyPasses(text, depth, comma + ("\n" + more), style);
      TextPasses(es[0], depth + 1, comma + ("\n" + more), true, style, mode);
      CommaPasses(|es| > 1, more, depth, style.indent);
      ItemsPass(es[1..], depth, tail, style, mode);
    }
  }

  lemma ItemSplits(es: seq<Json>, depth: nat, end: string, style: Style)
    requires es != [] && depth > 0 && style.Pretty?
    ensures ItemsText(es, depth, style) + end ==
            Spaces(depth * style.indent)
            + (Text(es[0], depth + 1, style)
               + ((if |es| > 1 then "," else "") + ("\n" + (ItemsText(es[1..], depth, style) + end))))
  {
    var a, b, c := Spaces(depth * style.indent), Text(es[0], depth + 1, style), if |es| > 1 then "," else "";
    var d := ItemsText(es[1..], depth, style);
    hide Text;
    hide Spaces;
    assert ItemsText(es, depth, style) == a + b + c + "\n" + d;
    hide ItemsText;
    LineAssociates(a, b, c, d, end);
  }

  lemma LineAssociates(a: string, b: string, c: string, d: string, e: string)
    ensures a + b + c + "\n" + d + e == a + (b + (c + ("\n" + (d + e))))
  {
  }

  lemma {:induction false} ObjectPasses(ms: seq<Member>, depth: nat, empty: bool, tail: string, start: bool,
                                        style: Style, mode: Mode)
    requires depth > 0 && style.Pretty? && forall i :: 0 <= i < |ms| ==> SafeMember(ms[i], style, mode)
    requires ms != [] ==> !empty
    requires ms == [] ==> empty || depth == 1
    ensures Indented(ObjectText(ms, depth, empty, style) + tail, depth - 1, start, style.indent)
       <==> Indented(tail, depth - 1, false, style.indent)
    decreases ms, 1
  {
    hide Indented;
    hide PairsText;
    var body := PairsText(ms, depth, style) + Tail(empty, '}', depth, style, tail);
    ObjectSplits(ms, depth, empty, tail, style);
    if ms == [] {
      OpenPasses('{', "}" + tail, depth - 1, start, style.indent);
      ClosePasses('}', tail, depth, style.indent);
    } else {
      OpenPasses('{', "\n" + body, depth - 1, start, style.indent);
      LineAnyway(body, depth, style.indent);
      PairsPass(ms, depth, tail, style, mode);
    }
  }

  lemma ObjectSplits(ms: seq<Member>, depth: nat, empty: bool, tail: string, style: Style)
    requires depth > 0 && style.Pretty? && (if ms == [] then empty || depth == 1 else !empty)
    ensures ObjectText(ms, depth, empty, style) + tail ==
            "{" + if ms == [] then "}" + tail
                  else "\n" + (PairsText(ms, depth, style) + Tail(empty, '}', depth, style, tail))
  {
    var body, pad := PairsText(ms, depth, style), Pad(style, depth - 1);
    assert ms == [] ==> body == "" && (empty || pad == "");
    hide PairsText;
    hide Pad;
    if ms != [] {
      assert ObjectText(ms, depth, empty, style) == "{" + "\n" + body + pad + "}";
      FrameAssociates("{", body, pad, "}", tail);
    }
  }

  lemma {:induction false} PairsPass(ms: seq<Member>, depth: nat, tail: string, style: Style, mode: Mode)
    requires depth > 0 && style.Pretty? && forall i :: 0 <= i < |ms| ==> SafeMember(ms[i], style, mode)
    ensures Indented("\n" + (PairsText(ms, depth, style) + Tail(false, '}', depth, style, tail)),
                     depth, false, style.indent)
       <==> Indented(tail, depth - 1, false, style.indent)
    decreases ms, 0
  {
    hide Indented;
    hide Spaces;
    hide Tail;
    var end := Tail(false, '}', depth, style, tail);
    if ms == [] {
      assert PairsText(ms, depth, style) + end == end;
      EndPasses('}', depth, tail, style);
    } else {
      var more := PairsText(ms[1..], depth, style) + end;
      var comma := if |ms| > 1 then "," else "";
      var text := PairText(ms[0], depth, style);
      PairSplits(ms, depth, end, style);
      hide PairsText;
      PairStarts(ms[0], depth, style);
      hide PairText;
      BodyPasses(text, depth, comma + ("\n" + more), style);
      PairPasses(ms[0], depth, comma + ("\n" + more), true, style, mode);
      CommaPasses(|ms| > 1, more, depth, style.indent);
      PairsPass(ms[1..], depth, tail, style, mode);
    }
  }

  lemma PairStarts(m: Member, depth: nat, style: Style)
    requires depth > 0
    ensures var t := PairText(m, depth, style); t != [] && t[0] == '\"'
  {
    hide Text;
  }

  lemma PairSplits(ms: seq<Member>, depth: nat, end: string, style: Style)
    requires ms != [] && depth > 0 && style.Pretty?
    ensures PairsText(ms, depth, style) + end ==
            Spaces(depth * style.indent)
            + (PairText(ms[0], depth, style)
               + ((if |ms| > 1 then "," else "") + ("\n" + (PairsText(ms[1..], depth, style) + end))))
  {
    var a, b, c := Spaces(depth * style.indent), PairText(ms[0], depth, style), if |ms| > 1 then "," else "";
    var d := PairsText(ms[1..], depth, style);
    hide PairText;
    hide Spaces;
    assert PairsText(ms, depth, style) == a + b + c + "\n" + d;
    hide PairsText;
    LineAssociates(a, b, c, d, end);
  }

  lemma {:induction false} PairPasses(m: Member, depth: nat, tail: string, start: bool, style: Style, mode: Mode)
    requires depth > 0 && style.Pretty? && SafeMember(m, style, mode)
    ensures Indented(PairText(m, depth, style) + tail, depth, start, style.indent)
       <==> Indented(tail, depth, false, style.indent)
    decreases m, 2
  {
    hide Indented;
    hide Text;
    hide LexicallyClosed;
    var value := Text(m.value, depth + 1, style) + tail;
    var body := StringBody(m.key, style).value;
    assert PairText(m, depth, style) + tail == "\"" + body + "\"" + (": " + value);
    StringPasses(body, ": " + value, depth, start, style.indent);
    OrdinaryPasses(": ", value, depth, false, style.indent);
    TextPasses(m.value, depth + 1, tail, false, style, mode);
  }

  /** For every positive indent, the text of every data tree is laid out so. */
  lemma FormatIndents(root: Json, indent: int, escape: bool, mode: Mode)
    requires indent > 0 && IsContainer(root) && Data(root) && mode.escape && (!escape || PlainTree(root))
    ensures Indented(FormatText(root, indent, escape, mode), 0, false, indent)
  {
    var style := Pretty(indent, escape, mode);
    var text := FormatText(root, indent, escape, mode);
    DataIsSafe(root, style, mode);
    hide Indented;
    hide ItemsText;
    hide PairsText;
    if root.JArray? {
      EmptyRoot(root.elements, [], style);
      ArrayPasses(root.elements, 1, root.elements == [], "", false, style, mode);
    } else {
      EmptyRoot([], root.members, style);
      ObjectPasses(root.members, 1, root.members == [], "", false, style, mode);
    }
    assert text + "" == text;
    NothingIndented(indent);
  }

  lemma NothingIndented(indent: nat)
    ensures Indented("", 0, false, indent)
  {
  }

  /** The root is never taken for empty, which makes no difference at its depth. */
  lemma EmptyRoot(es: seq<Json>, ms: seq<Member>, style: Style)
    requires style.Pretty?
    ensures ArrayText(es, 1, false, style) == ArrayText(es, 1, es == [], style)
    ensures ObjectText(ms, 1, false, style) == ObjectText(ms, 1, ms == [], style)
  {
    hide ItemsText;
    hide PairsText;
    assert Pad(style, 0) == "";
  }

  // ---- and what the compact printer leaves out ----

  /** The text without the blanks and newlines that are outside strings. */
  function Stripped(s: string): string
    decreases |s|
  {
    if s == [] then []
    else if s[0] == ' ' || s[0] == '\n' then Stripped(s[1..])
    else if s[0] == '\"' then
      var scan := ScanString(s[1..]);
      if scan.Found? then "\"" + scan.lexeme + "\"" + Stripped(scan.rest) else s
    else [s[0]] + Stripped(s[1..])
  }

  lemma {:induction false} StripBlanks(n: nat, tail: string)
    ensures Stripped(Spaces(n) + tail) == Stripped(tail)
  {
    if n == 0 {
      assert Spaces(n) + tail == tail;
    } else {
      assert (Spaces(n) + tail)[1..] == Spaces(n - 1) + tail;
      StripBlanks(n - 1, tail);
    }
  }

  lemma StripNewline(tail: string)
    ensures Stripped("\n" + tail) == Stripped(tail)
  {
    assert ("\n" + tail)[1..] == tail;
  }

  lemma {:induction false} StripNothing(w: string, tail: string)
    requires forall i :: 0 <= i < |w| ==> w[i] != ' ' && w[i] != '\n' && w[i] != '\"'
    ensures Stripped(w + tail) == w + Stripped(tail)
  {
    if w == [] {
      assert w + tail == tail;
    } else {
      assert (w + tail)[1..] == w[1..] + tail;
      StripNothing(w[1..], tail);
    }
  }

  /** A string is printed alike by both, and kept. */
  lemma StripString(s: JsonString, tail: string, style: Style)
    requires s.isEscaped && Plain(s.value) && style.Pretty? && style.escape
    ensures Stripped(StringText(s, style) + tail) == StringText(s, Compact) + Stripped(tail)
  {
    PlainIsClosed(s.value, style.mode);
    ScanClosed(s.value, tail);
    var all := "\"" + s.value + "\"" + tail;
    assert all[1..] == s.value + "\"" + tail;
    hide ScanString;
  }

  lemma {:induction false} StripText(v: Json, depth: nat, tail: string, style: Style)
    requires depth > 0 && style.Pretty? && style.escape && Data(v) && PlainTree(v)
    ensures Stripped(Text(v, depth, style) + tail) == Text(v, depth, Compact) + Stripped(tail)
    decreases v, 2
  {
    hide Stripped;
    hide ItemsText;
    hide PairsText;
    if v.JArray? {
      StripArray(v.elements, depth, v.elements == [], tail, style);
    } else if v.JObject? {
      StripObject(v.members, depth, v.members == [], tail, style);
    } else if v.JString? {
      StripString(v.s, tail, style);
    } else {
      if v.JInt? {
        NatTextDigits(if v.n < 0 then -v.n else v.n);
      }
      StripNothing(ScalarText(v, style), tail);
    }
  }

  lemma {:induction false} StripArray(es: seq<Json>, depth: nat, empty: bool, tail: string, style: Style)
    requires depth > 0 && style.Pretty? && style.escape && if es == [] then empty || depth == 1 else !empty
    requires forall i :: 0 <= i < |es| ==> Data(es[i]) && PlainTree(es[i])
    ensures Stripped(ArrayText(es, depth, empty, style) + tail)
         == ArrayText(es, depth, empty, Compact) + Stripped(tail)
    decreases es, 1
  {
    hide Stripped;
    ArraySplits(es, depth, empty, tail, style);
    CompactFrame(ItemsText(es, depth, Compact), "[", "]", Stripped(tail));
    hide ItemsText;
    if es == [] {
      StripNothing("[]", tail);
      assert "[" + ("]" + tail) == "[]" + tail;
    } else {
      var body := ItemsText(es, depth, style) + Tail(empty, ']', depth, style, tail);
      StripNothing("[", "\n" + body);
      StripNewline(body);
      StripItems(es, depth, Tail(empty, ']', depth, style, tail), style);
      StripTail(']', depth, tail, style);
    }
  }

  lemma CompactFrame(body: string, open: string, close: string, rest: string)
    ensures open + "" + body + "" + close + rest == open + (body + (close + rest))
  {
    assert open + "" == open && open + body + "" == open + body;
  }

  lemma StripTail(close: char, depth: nat, tail: string, style: Style)
    requires depth > 0 && style.Pretty? && Closes(close)
    ensures Stripped(Tail(false, close, depth, style, tail)) == [close] + Stripped(tail)
  {
    hide Stripped;
    StripBlanks((depth - 1) * style.indent, [close] + tail);
    StripNothing([close], tail);
  }

  lemma {:induction false} StripItems(es: seq<Json>, depth: nat, end: string, style: Style)
    requires depth > 0 && style.Pretty? && style.escape
    requires forall i :: 0 <= i < |es| ==> Data(es[i]) && PlainTree(es[i])
    ensures Stripped(ItemsText(es, depth, style) + end) == ItemsText(es, depth, Compact) + Stripped(end)
    decreases es, 0
  {
    hide Stripped;
    if es == [] {
      assert ItemsText(es, depth, style) + end == end && [] + Stripped(end) == Stripped(end);
    } else {
      var more := ItemsText(es[1..], depth, style) + end;
      var comma := if |es| > 1 then "," else "";
      var text := Text(es[0], depth + 1, style);
      ItemSplits(es, depth, end, style);
      CompactLine(Text(es[0], depth + 1, Compact), comma, ItemsText(es[1..], depth, Compact), Stripped(end));
      hide Text;
      StripLine(text, comma, more, depth, style);
      StripText(es[0], depth + 1, comma + ("\n" + more), style);
      StripItems(es[1..], depth, end, style);
    }
  }

  /** The blanks in front of a line, and its end. */
  lemma StripLine(text: string, comma: string, more: string, depth: nat, style: Style)
    requires style.Pretty? && (comma == "" || comma == ",")
    ensures Stripped(Spaces(depth * style.indent) + (text + (comma + ("\n" + more))))
         == Stripped(text + (comma + ("\n" + more)))
    ensures Stripped(comma + ("\n" + more)) == comma + Stripped(more)
  {
    hide Stripped;
    StripBlanks(depth * style.indent, text + (comma + ("\n" + more)));
    StripNothing(comma, "\n" + more);
    StripNewline(more);
  }

  lemma CompactLine(text: string, comma: string, more: string, rest: string)
    ensures "" + text + comma + "" + more + rest == text + (comma + (more + rest))
  {
    assert "" + text == text && text + comma + "" == text + comma;
  }

  lemma {:induction false} StripObject(ms: seq<Member>, depth: nat, empty: bool, tail: string, style: Style)
    requires depth > 0 && style.Pretty? && style.escape && if ms == [] then empty || depth == 1 else !empty
    requires forall i :: 0 <= i < |ms| ==> DataMember(ms[i]) && PlainMember(ms[i])
    ensures Stripped(ObjectText(ms, depth, empty, style) + tail)
         == ObjectText(ms, depth, empty, Compact) + Stripped(tail)
    decreases ms, 1
  {
    hide Stripped;
    ObjectSplits(ms, depth, empty, tail, style);
    CompactFrame(PairsText(ms, depth, Compact), "{", "}", Stripped(tail));
    hide PairsText;
    if ms == [] {
      StripNothing("{}", tail);
      assert "{" + ("}" + tail) == "{}" + tail;
    } else {
      var body := PairsText(ms, depth, style) + Tail(empty, '}', depth, style, tail);
      StripNothing("{", "\n" + body);
      StripNewline(body);
      StripPairs(ms, depth, Tail(empty, '}', depth, style, tail), style);
      StripTail('}', depth, tail, style);
    }
  }

  lemma {:induction false} StripPairs(ms: seq<Member>, depth: nat, end: string, style: Style)
    requires depth > 0 && style.Pretty? && style.escape
    requires forall i :: 0 <= i < |ms| ==> DataMember(ms[i]) && PlainMember(ms[i])
    ensures Stripped(PairsText(ms, depth, style) + end) == PairsText(ms, depth, Compact) + Stripped(end)
    decreases ms, 0
  {
    hide Stripped;
    if ms == [] {
      assert PairsText(ms, depth, style) + end == end && [] + Stripped(end) == Stripped(end);
    } else {
      var more := PairsText(ms[1..], depth, style) + end;
      var comma := if |ms| > 1 then "," else "";
      var text := PairText(ms[0], depth, style);
      PairSplits(ms, depth, end, style);
      CompactLine(PairText(ms[0], depth, Compact), comma, PairsText(ms[1..], depth, Compact), Stripped(end));
      hide PairText;
      StripLine(text, comma, more, depth, style);
      StripPair(ms[0], depth, comma + ("\n" + more), style);
      StripPairs(ms[1..], depth, end, style);
    }
  }

  lemma {:induction false} StripPair(m: Member, depth: nat, tail: string, style: Style)
    requires depth > 0 && style.Pretty? && style.escape && DataMember(m) && PlainMember(m)
    ensures Stripped(PairText(m, depth, style) + tail) == PairText(m, depth, Compact) + Stripped(tail)
    decreases m, 2
  {
    hide Stripped;
    var key, value := StringText(m.key, style), Text(m.value, depth + 1, style);
    assert key + ": " + value + tail == key + (":" + (" " + (value + tail)));
    StripString(m.key, ":" + (" " + (value + tail)), style);
    StripNothing(":", " " + (value + tail));
    assert Spaces(1) == " ";
    StripBlanks(1, value + tail);
    StripText(m.value, depth + 1, tail, style);
    hide Text;
    hide StringText;
    PairAssociates(StringText(m.key, Compact), Text(m.value, depth + 1, Compact), Stripped(tail));
  }

  lemma PairAssociates(key: string, value: string, rest: string)
    ensures key + (":" + (value + rest)) == key + ":" + value + rest
  {
  }

  /** The compact text of a tree whose strings need no escapes is its indented text without that layout. */
  lemma CompactIsStripped(root: Json, indent: int, mode: Mode)
    requires indent > 0 && IsContainer(root) && Data(root) && PlainTree(root)
    ensures Stripped(FormatText(root, indent, true, mode)) == FormatText(root, 0, true, mode)
  {
    hide Stripped;
    hide ItemsText;
    hide PairsText;
    var style := Pretty(indent, true, mode);
    var text := FormatText(root, indent, true, mode);
    assert text + "" == text;
    assert Stripped("") == "" by {
      NothingStripped();
    }
    if root.JArray? {
      EmptyRoot(root.elements, [], style);
      StripArray(root.elements, 1, root.elements == [], "", style);
    } else {
      EmptyRoot([], root.members, style);
      StripObject(root.members, 1, root.members == [], "", style);
    }
  }

  lemma NothingStripped()
    ensures Stripped("") == ""
  {
  }
}
