/**
 The header states of a request: field lines are read off the receive buffer as far
 as they have come in, and reading goes on where it stopped when more bytes arrive.
 */
module HttpRequest {
  import opened Buffer
  import opened Common
  import opened HttpHeader

  /** `RetCode`, in the header states. `Throws` is `substr` past the end of a line. */
  datatype Code = LineDone | Again | HeaderDone | Bad | Throws

  /** Where reading stands: the headers so far and the bytes not yet taken off the buffer. */
  datatype Outcome = Outcome(code: Code, headers: seq<Entry>, unread: string)

  /** `parseRequestHeader` on the unread bytes. */
  function ParseHeader(text: string, h: seq<Entry>): (o: Outcome)
    ensures o.code != LineDone
    decreases |text|
  {
    if CRLF <= text then Outcome(HeaderDone, h, text[2..])
    else
      var pos := Find(text, CRLF);
      if pos == |text| then Outcome(Again, h, text)
      else
        var line := text[..pos];
        var colon := Find(line, ":");
        if colon == |line| then Outcome(Bad, h, text)
        else if colon + 2 > |line| then Outcome(Throws, h, text)
        else ParseHeader(text[pos + 2..], Add0(h, line[..colon], line[colon + 2..]))
  }

  /** More bytes arrive: a reader that is in front of the headers, or waits for them, goes on reading. */
  function Resume(o: Outcome, more: string): Outcome {
    if o.code == LineDone || o.code == Again then ParseHeader(o.unread + more, o.headers)
    else Outcome(o.code, o.headers, o.unread + more)
  }

  function ResumeAll(o: Outcome, chunks: seq<string>): Outcome
    decreases |chunks|
  {
    if chunks == [] then o else ResumeAll(Resume(o, chunks[0]), chunks[1..])
  }

  function Joined(chunks: seq<string>): string {
    if chunks == [] then "" else chunks[0] + Joined(chunks[1..])
  }

  lemma {:induction false} FindInFront(a: string, b: string, p: string)
    requires p != "" && Find(a, p) < |a|
    ensures Find(a + b, p) == Find(a, p)
  {
    if !(p <= a) {
      assert (a + b)[1..] == a[1..] + b;
      FindInFront(a[1..], b, p);
      assert (a + b)[..|p|] == a[..|p|];
    }
  }

  /** One turn of the reader, on a field line in front. */
  lemma HeaderTurn(text: string, h: seq<Entry>)
    requires !(CRLF <= text) && Find(text, CRLF) < |text|
    ensures var pos := Find(text, CRLF); var line := text[..pos]; var colon := Find(line, ":");
            && pos + 2 <= |text|
            && (colon == |line| ==> ParseHeader(text, h) == Outcome(Bad, h, text))
            && (colon == |line| - 1 ==> ParseHeader(text, h) == Outcome(Throws, h, text))
            && (colon < |line| - 1 ==>
                  var l := Add0(h, line[..colon], line[colon + 2..]);
                  ParseHeader(text, h) == ParseHeader(text[pos + 2..], l))
  {
    hide Find;
    hide Add0;
  }

  lemma HeaderStops(text: string, h: seq<Entry>)
    requires CRLF <= text || Find(text, CRLF) == |text|
    ensures ParseHeader(text, h)
         == if CRLF <= text then Outcome(HeaderDone, h, text[2..]) else Outcome(Again, h, text)
  {
    hide Find;
    hide Add0;
  }

  /** The first line of `a` is that of `a + b`. */
  lemma SameLine(a: string, b: string)
    requires !(CRLF <= a) && Find(a, CRLF) < |a|
    ensures var pos := Find(a, CRLF);
            && pos + 2 <= |a| && !(CRLF <= a + b) && Find(a + b, CRLF) == pos
            && (a + b)[..pos] == a[..pos] && (a + b)[pos + 2..] == a[pos + 2..] + b
  {
    FindInFront(a, b, CRLF);
    hide Find;
    assert (a + b)[..2] == a[..2];
    CutBoth(a, b, Find(a, CRLF));
  }

  lemma CutBoth(a: string, b: string, pos: nat)
    requires pos + 2 <= |a|
    ensures (a + b)[..pos] == a[..pos]
    ensures (a + b)[pos + 2..] == a[pos + 2..] + b
  {
  }

  /** A turn on `a` and on `a + b`: both stop alike, or both go on, behind the same line. */
  lemma SplitTurn(a: string, b: string, h: seq<Entry>)
    requires !(CRLF <= a) && Find(a, CRLF) < |a|
    ensures var pos := Find(a, CRLF); var line := a[..pos]; var colon := Find(line, ":");
            && pos + 2 <= |a|
            && (colon + 2 > |line| ==> Resume(ParseHeader(a, h), b) == ParseHeader(a + b, h))
            && (colon + 2 <= |line| ==>
                  var l := Add0(h, line[..colon], line[colon + 2..]);
                  && ParseHeader(a, h) == ParseHeader(a[pos + 2..], l)
                  && ParseHeader(a + b, h) == ParseHeader(a[pos + 2..] + b, l))
  {
    hide ParseHeader;
    hide Find;
    hide Add0;
    SameLine(a, b);
    var pos := Find(a, CRLF);
    var line := a[..pos];
    var colon := Find(line, ":");
    assert |line| == pos && (colon == |line| || colon == |line| - 1 || colon + 2 <= |line|);
    HeaderTurn(a, h);
    HeaderTurn(a + b, h);
  }

  /** Reading part of the bytes first makes no difference. */
  lemma {:induction false} SplitAgrees(a: string, b: string, h: seq<Entry>)
    ensures Resume(ParseHeader(a, h), b) == ParseHeader(a + b, h)
    decreases |a|
  {
    hide ParseHeader;
    hide Find;
    hide Add0;
    if CRLF <= a {
      HeaderStops(a, h);
      HeaderStops(a + b, h);
      assert CRLF <= a + b && (a + b)[2..] == a[2..] + b;
    } else if Find(a, CRLF) == |a| {
      HeaderStops(a, h);
    } else {
      var pos := Find(a, CRLF);
      var line := a[..pos];
      var colon := Find(line, ":");
      SplitTurn(a, b, h);
      if colon + 2 <= |line| {
        SplitAgrees(a[pos + 2..], b, Add0(h, line[..colon], line[colon + 2..]));
      }
    }
  }

  /**
   However the bytes are cut into pieces, reading after each piece ends in the same
   code, the same headers and the same unread bytes as reading them all at once.
   */
  lemma {:induction false} ChunksAgree(text: string, h: seq<Entry>, chunks: seq<string>)
    ensures ResumeAll(ParseHeader(text, h), chunks) == ParseHeader(text + Joined(chunks), h)
    decreases |chunks|
  {
    hide ParseHeader;
    if chunks == [] {
      assert text + Joined(chunks) == text;
    } else {
      SplitAgrees(text, chunks[0], h);
      ChunksAgree(text + chunks[0], h, chunks[1..]);
      assert text + chunks[0] + Joined(chunks[1..]) == text + Joined(chunks);
    }
  }

  lemma EntryReads(e: Entry, rest: string, h: seq<Entry>)
    requires OneLine(e)
    ensures ParseHeader(e.key + ": " + e.value + CRLF + rest, h) == ParseHeader(rest, Add0(h, e.key, e.value))
  {
    hide Add0;
    hide Find;
    hide ParseHeader;
    var line := e.key + ": " + e.value;
    var text := line + CRLF + rest;
    LineHolds(e);
    LineEnds(line, rest);
    HeaderTurn(text, h);
    assert line[..|e.key|] == e.key;
    assert line[|e.key| + 2..] == e.value;
  }

  /** What the header map stores, the request reader reads back, and stops where the body begins. */
  lemma {:induction false} StoredReads(h: seq<Entry>, n: nat, body: string)
    requires WellFormed(h) && n <= |h| && forall i :: 0 <= i < |h| ==> OneLine(h[i])
    ensures ParseHeader(Text(h[n..]) + CRLF + body, h[..n]) == Outcome(HeaderDone, h, body)
    decreases |h| - n
  {
    hide Add0;
    hide OneLine;
    hide WellFormed;
    hide ParseHeader;
    if n == |h| {
      assert Text(h[n..]) + CRLF + body == CRLF + body;
      assert h[..n] == h;
      HeaderStops(CRLF + body, h);
    } else {
      hide Text;
      TextFrom(h, n, body);
      Add0Next(h, n);
      EntryReads(h[n], Text(h[n + 1..]) + CRLF + body, h[..n]);
      StoredReads(h, n + 1, body);
    }
  }

  lemma {:induction false} ReadFits(text: string, h: seq<Entry>)
    requires AllFit(h, true)
    ensures AllFit(ParseHeader(text, h).headers, true)
    decreases |text|
  {
    hide ParseHeader;
    hide Find;
    hide Add0;
    hide AllFit;
    if CRLF <= text || Find(text, CRLF) == |text| {
      HeaderStops(text, h);
    } else {
      HeaderTurn(text, h);
      var pos := Find(text, CRLF);
      var line := text[..pos];
      var colon := Find(line, ":");
      if colon + 2 <= |line| {
        LineFits(text, colon + 2);
        Add0Fits(h, line[..colon], line[colon + 2..], true);
        ReadFits(text[pos + 2..], Add0(h, line[..colon], line[colon + 2..]));
      }
    }
  }

  /**
   Over the wire, in any pieces, a stored header map arrives whole exactly when no key
   holds a colon or a CRLF and no value a CRLF.
   */
  lemma SentReadsExactly(h: seq<Entry>, body: string, chunks: seq<string>)
    requires WellFormed(h) && Joined(chunks) == Text(h) + CRLF + body
    ensures ResumeAll(Outcome(Again, [], ""), chunks) == Outcome(HeaderDone, h, body) <==> AllFit(h, true)
  {
    hide ParseHeader;
    hide WellFormed;
    hide OneLine;
    HeaderStops("", []);
    ChunksAgree("", [], chunks);
    assert "" + Joined(chunks) == Joined(chunks);
    ReadFits(Text(h) + CRLF + body, []);
    assert h[0..] == h && h[..0] == [];
    if AllFit(h, true) {
      StoredReads(h, 0, body);
    }
  }

  // ---- the two header parsers ----

  /** The complete field line in front: its name, all that is behind its colon, and the text behind it. */
  datatype FieldLine = NoField | Field(name: string, behind: string, rest: string)

  function FirstField(text: string): (f: FieldLine)
    ensures f.Field? ==> |f.rest| < |text|
  {
    var pos := Find(text, CRLF);
    if CRLF <= text || pos == |text| then NoField
    else
      var line := text[..pos];
      var colon := Find(line, ":");
      if colon == |line| then NoField else Field(line[..colon], line[colon + 1..], text[pos + 2..])
  }

  /** It is a line up to the first CRLF, with a name up to its first colon. */
  lemma FieldExactly(text: string, name: string, behind: string, rest: string)
    ensures FirstField(text) == Field(name, behind, rest) <==>
            && text == name + ":" + behind + "\r\n" + rest
            && !Holds(name, ":") && !Holds(name + ":" + behind, "\r\n")
  {
    var line := name + ":" + behind;
    FindNone(name, ":");
    FindNone(line, CRLF);
    hide Find;
    if text == line + CRLF + rest && !Holds(name, ":") && !Holds(line, CRLF) {
      LineEnds(line, rest);
      FindBehind(name, ":", ":" + behind);
      assert line == name + (":" + behind);
      assert line[..|name|] == name && line[|name| + 1..] == behind;
    }
    if FirstField(text) == Field(name, behind, rest) {
      FieldSplits(text);
    }
  }

  lemma FieldSplits(text: string)
    requires FirstField(text).Field?
    ensures var f := FirstField(text); var line := f.name + ":" + f.behind;
            text == line + CRLF + f.rest && !Holds(f.name, ":") && !Holds(line, CRLF)
  {
    var pos := Find(text, CRLF);
    var line := text[..pos];
    var colon := Find(line, ":");
    PieceHoldsNone(text, CRLF, 0, pos);
    PieceHoldsNone(line, ":", 0, colon);
    FindNone(line, CRLF);
    FindNone(line[..colon], ":");
    assert line[..colon] == line[0..colon] && line == text[0..pos];
    hide Find;
    hide Holds;
    CutAt(line, ":", colon);
    CutAt(text, CRLF, pos);
  }

  lemma CutAt(s: string, p: string, n: nat)
    requires n + |p| <= |s| && s[n..n + |p|] == p
    ensures s == s[..n] + p + s[n + |p|..]
  {
  }

  /** Both parsers give a field the same value exactly when one space follows its colon. */
  lemma ValuesAgreeExactly(behind: string)
    ensures behind != "" && behind[1..] == behind[SpaceRun(behind)..] <==> SpaceRun(behind) == 1
  {
    assert behind != "" ==> |behind[1..]| == |behind| - 1;
    assert |behind[SpaceRun(behind)..]| == |behind| - SpaceRun(behind);
  }

  /** Every complete field line has exactly one space behind its colon. */
  predicate OneSpaced(text: string)
    decreases |text|
  {
    var f := FirstField(text);
    f.Field? ==> SpaceRun(f.behind) == 1 && OneSpaced(f.rest)
  }

  /** The fields in the order in which `HttpHeader::parse` adds them. */
  function ParsedFields(text: string): seq<Entry>
    decreases |text|
  {
    var f := FirstField(text);
    if f.NoField? then [] else [Entry(f.name, f.behind[SpaceRun(f.behind)..])] + ParsedFields(f.rest)
  }

  /** The fields in the order in which the request reader adds them. */
  function ReadFields(text: string): seq<Entry>
    decreases |text|
  {
    var f := FirstField(text);
    if f.NoField? || f.behind == "" then [] else [Entry(f.name, f.behind[1..])] + ReadFields(f.rest)
  }

  /** On a whole text they find the same fields exactly when that holds of every line. */
  lemma {:induction false} FieldsAgreeExactly(text: string)
    ensures ParsedFields(text) == ReadFields(text) <==> OneSpaced(text)
    decreases |text|
  {
    hide FirstField;
    hide SpaceRun;
    var f := FirstField(text);
    if f.Field? {
      ValuesAgreeExactly(f.behind);
      FieldsAgreeExactly(f.rest);
      if f.behind != "" {
        SameLists(Entry(f.name, f.behind[SpaceRun(f.behind)..]), ParsedFields(f.rest),
                  Entry(f.name, f.behind[1..]), ReadFields(f.rest));
      }
    }
  }

  lemma SameLists(e: Entry, x: seq<Entry>, f: Entry, y: seq<Entry>)
    ensures [e] + x == [f] + y <==> e == f && x == y
  {
    assert ([e] + x)[0] == e && ([e] + x)[1..] == x;
    assert ([f] + y)[0] == f && ([f] + y)[1..] == y;
  }

  function AddAll(h: seq<Entry>, fields: seq<Entry>): seq<Entry>
    decreases |fields|
  {
    if fields == [] then h else AddAll(Add0(h, fields[0].key, fields[0].value), fields[1..])
  }

  lemma AddAllThen(h: seq<Entry>, e: Entry, fields: seq<Entry>)
    ensures AddAll(h, [e] + fields) == AddAll(Add0(h, e.key, e.value), fields)
  {
    assert ([e] + fields)[1..] == fields;
  }

  /** Both parsers stop where there is no field line. */
  lemma NoFieldTurn(text: string, h: seq<Entry>)
    requires FirstField(text).NoField?
    ensures Parse(text, h) == (h, if CRLF <= text then 2 else 0)
    ensures var o := ParseHeader(text, h);
            o.code != Throws && o.headers == h && o.unread == if CRLF <= text then text[2..] else text
  {
    hide Parse;
    hide ParseHeader;
    hide Find;
    hide Add0;
    ParseEnds(text, h);
    if CRLF <= text || Find(text, CRLF) == |text| {
      HeaderStops(text, h);
    } else {
      HeaderTurn(text, h);
    }
  }

  /** `HttpHeader::parse` on the field line in front. */
  lemma ParsedTurn(text: string, h: seq<Entry>)
    requires FirstField(text).Field?
    ensures var f := FirstField(text); var n := |text| - |f.rest|;
            var r := Parse(f.rest, Add0(h, f.name, f.behind[SpaceRun(f.behind)..]));
            Parse(text, h) == (r.0, n + r.1) && f.rest == text[n..]
  {
    hide Parse;
    hide Find;
    hide SpaceRun;
    hide Add0;
    var pos := Find(text, CRLF);
    var line := text[..pos];
    var colon := Find(line, ":");
    LineTurn(text, pos, colon, h);
    var behind := line[colon + 1..];
    assert line[colon + 1 + SpaceRun(behind)..] == behind[SpaceRun(behind)..];
  }

  /** The request reader on it. */
  lemma ReadTurn(text: string, h: seq<Entry>)
    requires FirstField(text).Field?
    ensures var f := FirstField(text);
            && (f.behind == "" ==> ParseHeader(text, h) == Outcome(Throws, h, text))
            && (f.behind != "" ==> ParseHeader(text, h) == ParseHeader(f.rest, Add0(h, f.name, f.behind[1..])))
  {
    hide ParseHeader;
    hide Find;
    hide Add0;
    HeaderTurn(text, h);
    var line := text[..Find(text, CRLF)];
    var colon := Find(line, ":");
    assert colon + 2 <= |line| ==> line[colon + 2..] == line[colon + 1..][1..];
  }

  /** A complete line that ends at its colon comes before the fields stop. */
  predicate BareColon(text: string)
    decreases |text|
  {
    var f := FirstField(text);
    f.Field? && (f.behind == "" || BareColon(f.rest))
  }

  /** The request reader throws exactly there, where it looks for the value behind the colon and one more. */
  lemma {:induction false} ThrowsExactly(text: string, h: seq<Entry>)
    ensures ParseHeader(text, h).code == Throws <==> BareColon(text)
    decreases |text|
  {
    hide FirstField;
    hide ParseHeader;
    hide Add0;
    var f := FirstField(text);
    if f.NoField? {
      NoFieldTurn(text, h);
    } else {
      ReadTurn(text, h);
      if f.behind != "" {
        ThrowsExactly(f.rest, Add0(h, f.name, f.behind[1..]));
      }
    }
  }

  /** The fields found are what the maps are built of. */
  lemma {:induction false} FieldsBuild(text: string, h: seq<Entry>)
    ensures Parse(text, h).0 == AddAll(h, ParsedFields(text))
    decreases |text|
  {
    hide FirstField;
    hide Parse;
    hide Add0;
    var f := FirstField(text);
    if f.NoField? {
      NoFieldTurn(text, h);
    } else {
      ParsedTurn(text, h);
      var e := Entry(f.name, f.behind[SpaceRun(f.behind)..]);
      FieldsBuild(f.rest, Add0(h, e.key, e.value));
      AddAllThen(h, e, ParsedFields(f.rest));
    }
  }

  lemma {:induction false} ReadFieldsBuild(text: string, h: seq<Entry>)
    ensures ParseHeader(text, h).headers == AddAll(h, ReadFields(text))
    decreases |text|
  {
    hide FirstField;
    hide ParseHeader;
    hide Add0;
    var f := FirstField(text);
    if f.NoField? {
      NoFieldTurn(text, h);
    } else {
      ReadTurn(text, h);
    }
    if f.Field? && f.behind != "" {
      var e := Entry(f.name, f.behind[1..]);
      ReadFieldsBuild(f.rest, Add0(h, e.key, e.value));
      AddAllThen(h, e, ReadFields(f.rest));
    }
  }

  // ---- the whole result ----

  /** What is left behind the lines that the request reader takes for fields. */
  function Unread(text: string): string
    decreases |text|
  {
    var f := FirstField(text);
    if f.Field? && f.behind != "" then Unread(f.rest) else text
  }

  /**
   The request reader takes the fields off the front. Then it is done at an empty line,
   waits for more where no line is complete, throws on a line that ends at its colon, and
   calls a line without one bad; only the empty line is taken off as well.
   */
  lemma {:induction false} ReadExactly(text: string, h: seq<Entry>)
    ensures var t, headers := Unread(text), AddAll(h, ReadFields(text));
            ParseHeader(text, h) ==
            if CRLF <= t then Outcome(HeaderDone, headers, t[2..])
            else if !Holds(t, CRLF) then Outcome(Again, headers, t)
            else if FirstField(t).Field? then Outcome(Throws, headers, t)
            else Outcome(Bad, headers, t)
    decreases |text|
  {
    hide ParseHeader;
    hide Add0;
    var f := FirstField(text);
    if f.Field? && f.behind != "" {
      hide FirstField;
      var e := Entry(f.name, f.behind[1..]);
      ReadTurn(text, h);
      ReadExactly(f.rest, Add0(h, e.key, e.value));
      AddAllThen(h, e, ReadFields(f.rest));
    } else {
      FindNone(text, CRLF);
      hide Find;
      if CRLF <= text || Find(text, CRLF) == |text| {
        HeaderStops(text, h);
      } else {
        HeaderTurn(text, h);
      }
    }
  }

  /** What is left behind all the fields. */
  function BehindFields(text: string): string
    decreases |text|
  {
    var f := FirstField(text);
    if f.Field? then BehindFields(f.rest) else text
  }

  /** The header parser takes all the fields off the front, and the empty line if there is one. */
  lemma {:induction false} ParseExactly(text: string, h: seq<Entry>)
    ensures var t := BehindFields(text);
            && |t| <= |text|
            && Parse(text, h) == (AddAll(h, ParsedFields(text)), |text| - |t| + if CRLF <= t then 2 else 0)
    decreases |text|
  {
    hide FirstField;
    hide Parse;
    hide Add0;
    var f := FirstField(text);
    if f.NoField? {
      NoFieldTurn(text, h);
    } else {
      ParsedTurn(text, h);
      var e := Entry(f.name, f.behind[SpaceRun(f.behind)..]);
      ParseExactly(f.rest, Add0(h, e.key, e.value));
      AddAllThen(h, e, ParsedFields(f.rest));
    }
  }

  /** Then the maps are the same, and so is what is left to read. */
  lemma {:induction false} ParsersAgree(text: string, h: seq<Entry>)
    requires OneSpaced(text)
    ensures var (map0, index) := Parse(text, h); var o := ParseHeader(text, h);
            o.code != Throws && o.headers == map0 && o.unread == text[index..]
    decreases |text|
  {
    hide FirstField;
    hide Parse;
    hide ParseHeader;
    hide Add0;
    var f := FirstField(text);
    if f.NoField? {
      NoFieldTurn(text, h);
    } else {
      ParsedTurn(text, h);
      ReadTurn(text, h);
      ValuesAgreeExactly(f.behind);
      var l := Add0(h, f.name, f.behind[1..]);
      ParsersAgree(f.rest, l);
      var n, index := |text| - |f.rest|, Parse(f.rest, l).1;
      assert text[n..][index..] == text[n + index..];
    }
  }

  /** A line that ends at its colon shows it: an empty value for the one, an exception for the other. */
  lemma BareColonThrows(key: string, rest: string, h: seq<Entry>)
    requires Find(key, ":") == |key| && Find(key, CRLF) == |key|
    ensures ParseHeader(key + ":" + CRLF + rest, h).code == Throws
    ensures var r := Parse(rest, Add0(h, key, ""));
            Parse(key + ":" + CRLF + rest, h) == (r.0, |key| + 3 + r.1)
  {
    hide Add0;
    hide Parse;
    hide ParseHeader;
    var line := key + ":";
    assert Find(":", CRLF) == 1 by {
      assert ":"[1..] == "";
    }
    FindInNeither(key, ":");
    FindBehind(key, ":", ":");
    hide Find;
    LineEnds(line, rest);
    HeaderTurn(line + CRLF + rest, h);
    LineTurn(line + CRLF + rest, |line|, |key|, h);
    assert line[..|key|] == key && line[|key| + 1..] == "";
  }

  /** The parts of a request that its header states use. */
  class HttpRequest {
    const recver: Buffer<char>
    const header: HttpHeader
    var retCode: Code

    constructor (recver: Buffer<char>)
      requires recver.Valid()
      ensures Valid() && this.recver == recver && fresh(header) && retCode == LineDone
      ensures header.headers == []
    {
      this.recver := recver;
      this.header := new HttpHeader();
      retCode := LineDone;
    }

    ghost predicate Valid()
      reads this, recver, header
    {
      recver.Valid() && header.Valid()
    }

    ghost function State(code: Code): Outcome
      reads this, recver, recver.buffer, header
      requires recver.Valid()
    {
      Outcome(code, header.headers, recver.Contents())
    }

    /** `parseRequestHeader`. */
    method ParseRequestHeader() returns (code: Code)
      requires Valid()
      modifies this`retCode, recver`rindex, recver`windex, header
      ensures Valid()
      ensures State(code) == ParseHeader(old(recver.Contents()), old(header.headers))
      ensures retCode == if code == Throws then old(retCode) else code
    {
      hide ParseHeader;
      hide Find;
      hide Add0;
      hide WellFormed;
      hide Buffer.Contents;
      hide Buffer.Valid;
      hide HttpHeader.Valid;
      var text := recver.Peek();
      while true
        invariant Valid() && text == recver.Contents() && retCode == old(retCode)
        invariant ParseHeader(text, header.headers) == ParseHeader(old(recver.Contents()), old(header.headers))
        decreases |text|
      {
        if |text| >= 2 && text[0] == '\r' && text[1] == '\n' {
          HeaderStops(text, header.headers);
          recver.Retired(2);
          assert |text| == 2 ==> text[2..] == [];
          retCode := HeaderDone;
          return retCode;
        }
        var pos := Find(text, CRLF);
        if pos == |text| {
          HeaderStops(text, header.headers);
          break;
        }
        HeaderTurn(text, header.headers);
        var line := text[..pos];
        var colon := Find(line, ":");
        if colon == |line| {
          retCode := Bad;
          return retCode;
        }
        if colon + 2 > |line| {
          return Throws;
        }
        TakeLine(line[..colon], line[colon + 2..], pos + 2);
        text := text[pos + 2..];
      }
      retCode := Again;
      return retCode;
    }

    /** Adds a header and drops its line. */
    method TakeLine(key: string, value: string, len: nat)
      requires Valid() && len <= |recver.Contents()|
      modifies recver`rindex, recver`windex, header
      ensures Valid() && header.headers == Add0(old(header.headers), key, value)
      ensures recver.Contents() == old(recver.Contents())[len..]
    {
      hide Add0;
      hide WellFormed;
      header.Add(key, value);
      recver.Retired(len);
    }

    /** More bytes arrive, and `parseRequest` runs; the states behind the header are left out. */
    method Receive(more: string) returns (code: Code)
      requires Valid() && retCode != Throws
      modifies this`retCode, recver, recver.buffer, header
      ensures Valid() && (recver.buffer == old(recver.buffer) || fresh(recver.buffer))
      ensures State(code) == Resume(old(State(retCode)), more)
      ensures code != Throws ==> retCode == code
      ensures retCode != Throws
    {
      hide ParseHeader;
      recver.Append(more);
      code := retCode;
      if retCode == LineDone || retCode == Again {
        code := ParseRequestHeader();
      }
    }

    /** Everything arrives, in pieces; an exception ends the reading after the first `used` of them. */
    method ReceiveAll(chunks: seq<string>) returns (code: Code, used: nat)
      requires Valid() && retCode == LineDone && chunks != []
      modifies this`retCode, recver, recver.buffer, header
      ensures Valid() && used <= |chunks| && (code != Throws ==> used == |chunks|)
      ensures State(code) == ParseHeader(old(recver.Contents()) + Joined(chunks[..used]), old(header.headers))
      ensures var o := ParseHeader(old(recver.Contents()) + Joined(chunks), old(header.headers));
              code == o.code && header.headers == o.headers
    {
      hide ParseHeader;
      hide Resume;
      ghost var text, h, b := recver.Contents(), header.headers, recver.buffer;
      code := Receive(chunks[0]);
      used := 1;
      assert State(code) == ParseHeader(text + Joined(chunks[..1]), h) by {
        JoinedOne(chunks);
        ResumeFirst(text, h, chunks[0]);
      }
      while used < |chunks| && code != Throws
        invariant 1 <= used <= |chunks| && Valid() && (recver.buffer == b || fresh(recver.buffer))
        invariant code != LineDone && retCode != Throws && (code != Throws ==> retCode == code)
        invariant State(code) == ParseHeader(text + Joined(chunks[..used]), h)
      {
        JoinedMore(text, chunks, used);
        SplitAgrees(text + Joined(chunks[..used]), chunks[used], h);
        code := Receive(chunks[used]);
        used := used + 1;
      }
      RestIsUnread(text, h, chunks, used);
    }
  }

  lemma ResumeFirst(text: string, h: seq<Entry>, more: string)
    ensures Resume(Outcome(LineDone, h, text), more) == ParseHeader(text + more, h)
  {
  }

  lemma JoinedOne(chunks: seq<string>)
    requires chunks != []
    ensures Joined(chunks[..1]) == chunks[0]
  {
    assert chunks[..1][1..] == [] && Joined([]) == "";
    assert chunks[0] + "" == chunks[0];
  }

  lemma {:induction false} JoinedTwo(a: seq<string>, b: seq<string>)
    ensures Joined(a + b) == Joined(a) + Joined(b)
  {
    if a == [] {
      assert a + b == b;
    } else {
      assert (a + b)[1..] == a[1..] + b;
      JoinedTwo(a[1..], b);
    }
  }

  lemma JoinedMore(text: string, chunks: seq<string>, k: nat)
    requires k < |chunks|
    ensures text + Joined(chunks[..k + 1]) == text + Joined(chunks[..k]) + chunks[k]
  {
    assert chunks[..k + 1] == chunks[..k] + [chunks[k]];
    JoinedTwo(chunks[..k], [chunks[k]]);
    assert Joined([chunks[k]]) == chunks[k] + "";
  }

  lemma JoinedRest(text: string, chunks: seq<string>, k: nat)
    requires k <= |chunks|
    ensures text + Joined(chunks) == text + Joined(chunks[..k]) + Joined(chunks[k..])
  {
    hide Joined;
    assert chunks == chunks[..k] + chunks[k..];
    JoinedTwo(chunks[..k], chunks[k..]);
    Associates(text, Joined(chunks[..k]), Joined(chunks[k..]));
  }

  lemma Associates(a: string, b: string, c: string)
    ensures a + (b + c) == a + b + c
  {
  }

  /** After an exception the other pieces would change neither code nor headers. */
  lemma RestIsUnread(text: string, h: seq<Entry>, chunks: seq<string>, used: nat)
    requires used <= |chunks|
    requires used == |chunks| || ParseHeader(text + Joined(chunks[..used]), h).code == Throws
    ensures var o, all := ParseHeader(text + Joined(chunks[..used]), h), ParseHeader(text + Joined(chunks), h);
            o.code == all.code && o.headers == all.headers
  {
    hide ParseHeader;
    if used == |chunks| {
      assert chunks[..used] == chunks;
    } else {
      JoinedRest(text, chunks, used);
      SplitAgrees(text + Joined(chunks[..used]), Joined(chunks[used..]), h);
    }
  }
}
