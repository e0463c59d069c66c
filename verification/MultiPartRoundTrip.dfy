/** Rendered multipart bodies (RFC 2046, section 5.1.1; RFC 7578, section 4) and what parsing them yields. */
module MultiPartRoundTrip {
  import opened Common
  import opened HttpMultiPart

  datatype Item =
    | Field(name: string, value: string)
    | File(name: string, fileName: string, fileType: string, value: string)

  const FORM_DATA := ": form-data; "

  /** The two header names of a part, in any case. */
  datatype Names = Names(disposition: string, contentType: string)

  predicate Spelled(names: Names) {
    SameName(names.disposition, "Content-Disposition") && SameName(names.contentType, "Content-Type")
  }

  function Header(item: Item, names: Names): string {
    match item
    case Field(name, _) => names.disposition + FORM_DATA + ("name=\"" + name + "\"") + CRLF
    case File(name, fileName, fileType, _) =>
      names.disposition + FORM_DATA + ("name=\"" + name + "\"") + ("; filename=\"" + fileName + "\"") + CRLF
      + (names.contentType + ": " + fileType + CRLF)
  }

  /** One part behind its boundary line. */
  function PartText(item: Item, names: Names, bd: string): string {
    "--" + bd + (CRLF + Header(item, names) + CRLF + item.value + CRLF)
  }

  function Render(items: seq<Item>, names: seq<Names>, bd: string): string
    requires |names| == |items|
  {
    if items == [] then "--" + bd + "--" + CRLF
    else PartText(items[0], names[0], bd) + Render(items[1..], names[1..], bd)
  }

  /** What one item does to the maps: the last field wins, the first file stays. */
  function Store(item: Item, maps: Maps): Maps {
    match item
    case Field(name, value) => maps.(form := maps.form[name := value])
    case File(name, fileName, fileType, value) =>
      maps.(files := AddFile(maps.files, Part(name, fileName, fileType, value)))
  }

  function StoreAll(items: seq<Item>, maps: Maps): Maps {
    if items == [] then maps else StoreAll(items[1..], Store(items[0], maps))
  }

  predicate Contains(s: string, p: string) {
    exists k :: 0 <= k <= |s| && StartsWith(s[k..], p)
  }

  /** Text that can stand between the quotes of a Content-Disposition line. */
  predicate Quotable(w: string) {
    '\"' !in w && !Contains(w, CRLF) && (w == [] || w[|w| - 1] != '=')
  }

  predicate Fits(item: Item, bd: string) {
    && Quotable(item.name)
    && (item.File? ==> Quotable(item.fileName) && !Contains(item.fileType, CRLF))
    && !Contains(item.value, CRLF + "--" + bd)
  }

  // ---- the scans ----

  lemma StartsWithPair(s: string, p: string)
    requires |p| == 2
    ensures StartsWith(s, p) <==> |s| >= 2 && s[0] == p[0] && s[1] == p[1]
  {
  }

  lemma ContainsLonger(w: string, p: string)
    requires w != [] && Contains(w[1..], p)
    ensures Contains(w, p)
  {
    var k :| 0 <= k <= |w[1..]| && StartsWith(w[1..][k..], p);
    assert w[k + 1..] == w[1..][k..];
  }

  lemma ContainsFront(w: string, p: string)
    requires StartsWith(w, p)
    ensures Contains(w, p)
  {
    assert w[0..] == w;
  }

  lemma QuotableTail(w: string)
    requires Quotable(w) && w != []
    ensures Quotable(w[1..])
    ensures !StartsWith(w, CRLF) && w[0] != '\"' && !(|w| == 1 && w[0] == '=')
  {
    if Contains(w[1..], CRLF) {
      ContainsLonger(w, CRLF);
    }
    if StartsWith(w, CRLF) {
      ContainsFront(w, CRLF);
    }
  }

  /** A quoted text is read up to its closing quote. */
  lemma {:induction false} ScanQuoted(w: string, r: string, name: string, fileName: string, isName: bool)
    requires Quotable(w)
    ensures ScanDisposition(w + "\"" + r, name, fileName, true, isName) ==
            if isName then ScanDisposition(r, name + w, fileName, false, false)
            else ScanDisposition(r, name, fileName + w, false, true)
    decreases |w|
  {
    var all := w + "\"" + r;
    StartsWithPair(all, CRLF);
    StartsWithPair(all, "=\"");
    if w == [] {
      assert all[0] == '\"' && all[1..] == r;
      assert name + w == name && fileName + w == fileName;
    } else {
      var c, v := w[0], w[1..];
      assert all[0] == c && all[1..] == v + "\"" + r;
      assert all[1] == if v == [] then '\"' else v[0];
      QuotableTail(w);
      StartsWithPair(w, CRLF);
      assert name + [c] + v == name + w && fileName + [c] + v == fileName + w;
      if isName {
        ScanQuoted(v, r, name + [c], fileName, isName);
      } else {
        ScanQuoted(v, r, name, fileName + [c], isName);
      }
    }
  }

  lemma {:induction false} LineOf(w: string, r: string)
    requires !Contains(w, CRLF)
    ensures LineLength(w + CRLF + r) == |w|
    decreases |w|
  {
    var all := w + CRLF + r;
    StartsWithPair(all, CRLF);
    if w == [] {
      assert all[0] == '\r' && all[1] == '\n';
    } else {
      assert all[0] == w[0] && all[1..] == w[1..] + CRLF + r;
      assert all[1] == if |w| == 1 then '\r' else w[1];
      StartsWithPair(w, CRLF);
      if StartsWith(w, CRLF) {
        ContainsFront(w, CRLF);
      }
      if Contains(w[1..], CRLF) {
        ContainsLonger(w, CRLF);
      }
      LineOf(w[1..], r);
    }
  }

  /** A delimiter without a second CR cannot begin inside the data before it. */
  lemma NoEarlyDelimiter(w: string, delim: string, r: string)
    requires w != [] && !Contains(w, delim) && delim != [] && delim[0] == '\r' && '\r' !in delim[1..]
    ensures !StartsWith(w + delim + r, delim)
  {
    var all := w + delim + r;
    if StartsWith(w, delim) {
      ContainsFront(w, delim);
    }
    assert |w| >= |delim| ==> all[..|delim|] == w[..|delim|];
    assert all[|w|] == '\r';
    assert |w| < |delim| ==> delim[|w|] == delim[1..][|w| - 1];
  }

  /** Data ends at the delimiter. */
  lemma {:induction false} DataOf(w: string, bd: string, r: string)
    requires !Contains(w, CRLF + "--" + bd) && '\r' !in bd && r != []
    ensures DataLength(w + (CRLF + "--" + bd) + r, bd) == |w|
    decreases |w|
  {
    var delim := CRLF + "--" + bd;
    var all := w + delim + r;
    if w == [] {
      assert all == delim + r;
    } else {
      assert all[1..] == w[1..] + delim + r;
      assert delim[1..] == "\n--" + bd;
      NoEarlyDelimiter(w, delim, r);
      if Contains(w[1..], delim) {
        ContainsLonger(w, delim);
      }
      DataOf(w[1..], bd, r);
    }
  }

  /** Text outside the quotes is skipped. */
  lemma {:induction false} ScanPlain(w: string, r: string, name: string, fileName: string, isName: bool)
    requires forall k :: 0 <= k < |w| ==> w[k] != '\"' && w[k] != '=' && w[k] != '\r'
    ensures ScanDisposition(w + r, name, fileName, false, isName) == ScanDisposition(r, name, fileName, false, isName)
    decreases |w|
  {
    if w == [] {
      assert w + r == r;
    } else {
      StartsWithPair(w + r, CRLF);
      StartsWithPair(w + r, "=\"");
      assert (w + r)[0] == w[0] && (w + r)[1..] == w[1..] + r;
      ScanPlain(w[1..], r, name, fileName, isName);
    }
  }

  /** One `key="w"` piece of the line. */
  lemma ScanPiece(key: string, w: string, r: string, name: string, fileName: string, isName: bool)
    requires forall k :: 0 <= k < |key| ==> key[k] != '\"' && key[k] != '=' && key[k] != '\r'
    requires Quotable(w)
    ensures ScanDisposition(key + "=\"" + w + "\"" + r, name, fileName, false, isName) ==
            if isName then ScanDisposition(r, name + w, fileName, false, false)
            else ScanDisposition(r, name, fileName + w, false, true)
  {
    hide ScanDisposition;
    var quoted := w + "\"" + r;
    assert key + "=\"" + w + "\"" + r == key + ("=\"" + quoted);
    ScanPlain(key, "=\"" + quoted, name, fileName, isName);
    ScanOpening(quoted, name, fileName, isName);
    ScanQuoted(w, r, name, fileName, isName);
  }

  lemma ScanOpening(r: string, name: string, fileName: string, isName: bool)
    ensures ScanDisposition("=\"" + r, name, fileName, false, isName)
         == ScanDisposition(r, name, fileName, true, isName)
  {
    var all := "=\"" + r;
    StartsWithPair(all, CRLF);
    StartsWithPair(all, "=\"");
    assert all[0] == '=' && all[1] == '\"' && all[2..] == r;
  }

  lemma ScanLineEnd(r: string, name: string, fileName: string, isName: bool)
    ensures ScanDisposition(CRLF + r, name, fileName, false, isName) == Disposition(r, name, fileName, true)
  {
    StartsWithPair(CRLF + r, CRLF);
    assert (CRLF + r)[2..] == r;
  }

  // ---- the machine on one part ----

  lemma Goes(m: Machine, t: Machine, bd: string)
    requires m.rest != [] && Step(m, bd) == t && (m.state != t.state || m.rest != t.rest)
    ensures Run(m, bd) == Run(t, bd)
  {
  }

  lemma ReadsBoundary(m: Machine, r: string, bd: string)
    requires m.state.StartBody? && m.rest == "--" + bd + CRLF + r
    ensures Run(m, bd) == Run(m.(state := EndBoundary, rest := r), bd)
  {
    hide Run;
    var t := m.(state := StartBoundary, rest := bd + CRLF + r);
    assert m.rest == "--" + t.rest;
    StartsWithPair(m.rest, "--");
    assert m.rest[0] == '-' && m.rest[1] == '-' && m.rest[2..] == t.rest;
    Goes(m, t, bd);
    var s := t.rest[|bd|..];
    assert StartsWith(t.rest, bd) && s == CRLF + r;
    StartsWithPair(s, CRLF);
    assert s[0] == '\r' && s[1] == '\n' && s[2..] == r;
    Goes(t, m.(state := EndBoundary, rest := r), bd);
  }

  /** The Content-Disposition line, whose pieces `line` spell `name` and `fileName`. */
  lemma ReadsDisposition(m: Machine, names: Names, line: string, r: string, name: string, fileName: string, bd: string)
    requires m.state.EndBoundary? && m.rest == names.disposition + FORM_DATA + line && Spelled(names)
    requires ScanDisposition(line, m.name, m.fileName, false, true) == Disposition(r, name, fileName, true)
    ensures Run(m, bd) == Run(m.(state := EndDisposition, rest := r, name := name, fileName := fileName), bd)
  {
    hide Run;
    hide ScanDisposition;
    var t := m.(state := StartDisposition, rest := FORM_DATA + line);
    assert m.rest == names.disposition + t.rest;
    assert m.rest[19..] == t.rest && m.rest[..19] == names.disposition;
    AnyCaseExactly(m.rest, "Content-Disposition");
    Goes(m, t, bd);
    assert Drop(t.rest, 13) == line;
    Goes(t, m.(state := EndDisposition, rest := r, name := name, fileName := fileName), bd);
  }

  lemma ReadsType(m: Machine, names: Names, fileType: string, r: string, bd: string)
    requires m.state.EndDisposition? && m.rest == names.contentType + ": " + (fileType + CRLF + (CRLF + r))
    requires Spelled(names)
    requires !Contains(fileType, CRLF) && m.fileType == ""
    ensures Run(m, bd) == Run(m.(state := StartData, rest := r, fileType := fileType, fileMark := true), bd)
  {
    hide Run;
    var t := m.(state := StartType, rest := fileType + CRLF + (CRLF + r), fileMark := true);
    StartsWithPair(m.rest, CRLF);
    assert m.rest[0] == names.contentType[0] && SameLetter(m.rest[0], 'C');
    assert m.rest[..12] == names.contentType;
    AnyCaseExactly(m.rest, "Content-Type");
    assert Drop(m.rest, 14) == t.rest;
    Goes(m, t, bd);
    var u := t.(state := EndType, rest := CRLF + r, fileType := fileType);
    ReadsTypeLine(t, fileType, CRLF + r, bd);
    ReadsEmptyLine(u, r, bd);
  }

  lemma ReadsTypeLine(m: Machine, fileType: string, r: string, bd: string)
    requires m.state.StartType? && m.rest == fileType + CRLF + r && !Contains(fileType, CRLF) && m.fileType == ""
    ensures Run(m, bd) == Run(m.(state := EndType, rest := r, fileType := fileType), bd)
  {
    hide Run;
    hide LineLength;
    LineOf(fileType, r);
    assert m.rest[|fileType| + 2..] == r && m.rest[..|fileType|] == fileType && "" + fileType == fileType;
    Goes(m, m.(state := EndType, rest := r, fileType := fileType), bd);
  }

  /** The empty line before the data, in either kind of part. */
  lemma ReadsEmptyLine(m: Machine, r: string, bd: string)
    requires (m.state.EndType? || m.state.EndDisposition?) && m.rest == CRLF + r
    ensures Run(m, bd) ==
            Run(m.(state := StartData, rest := r, fileMark := m.fileMark && m.state.EndType?), bd)
  {
    hide Run;
    StartsWithPair(m.rest, CRLF);
    assert m.rest[0] == '\r' && m.rest[1] == '\n' && m.rest[2..] == r;
    Goes(m, m.(state := StartData, rest := r, fileMark := m.fileMark && m.state.EndType?), bd);
  }

  /** The data, its delimiter, and the entry it makes. */
  lemma ReadsData(m: Machine, value: string, r: string, bd: string)
    requires m.state.StartData? && m.rest == value + (CRLF + "--" + bd) + r && r != []
    requires !Contains(value, CRLF + "--" + bd) && '\r' !in bd
    ensures Run(m, bd) ==
            Run(Machine(StartBody, "--" + bd + r, "", "", "", "", false,
                        if m.fileMark then m.form else m.form[m.name := value],
                        if m.fileMark then AddFile(m.files, Part(m.name, m.fileName, m.fileType, value))
                        else m.files), bd)
  {
    hide Run;
    hide AddFile;
    hide DataLength;
    DataOf(value, bd, r);
    var t := m.(state := EndData, rest := "--" + bd + r, data := value);
    CutData(value, bd, r);
    Goes(m, t, bd);
    Goes(t, Step(t, bd), bd);
  }

  lemma CutData(value: string, bd: string, r: string)
    ensures var all := value + (CRLF + "--" + bd) + r;
            all[..|value|] == value && |value| + 2 <= |all| && all[|value| + 2..] == "--" + bd + r
  {
    assert value + (CRLF + "--" + bd) + r == value + CRLF + ("--" + bd + r);
  }

  /** The line behind "form-data; ": its pieces up to the CRLF, then `r`. */
  lemma FieldLine(name: string, r: string)
    requires Quotable(name)
    ensures ScanDisposition("name=\"" + name + "\"" + (CRLF + r), "", "", false, true) == Disposition(r, name, "", true)
  {
    hide ScanDisposition;
    assert "name=\"" == "name" + "=\"" && "" + name == name;
    ScanPiece("name", name, CRLF + r, "", "", true);
    ScanLineEnd(r, name, "", false);
  }

  lemma FileLine(name: string, fileName: string, r: string)
    requires Quotable(name) && Quotable(fileName)
    ensures ScanDisposition("name=\"" + name + "\"" + ("; filename=\"" + fileName + "\"" + (CRLF + r)),
                            "", "", false, true)
         == Disposition(r, name, fileName, true)
  {
    hide ScanDisposition;
    var second := "; filename=\"" + fileName + "\"" + (CRLF + r);
    assert "name=\"" == "name" + "=\"" && "" + name == name && "" + fileName == fileName;
    ScanPiece("name", name, second, "", "", true);
    assert "; filename=\"" == "; filename" + "=\"";
    ScanPiece("; filename", fileName, CRLF + r, name, "", false);
    ScanLineEnd(r, name, fileName, true);
  }

  lemma PartSplits(item: Item, names: Names, bd: string, r: string)
    ensures PartText(item, names, bd) + ("--" + bd + r)
         == "--" + bd + CRLF + (Header(item, names) + (CRLF + (item.value + (CRLF + "--" + bd) + r)))
  {
    hide Header;
    assert CRLF + "--" + bd + r == CRLF + ("--" + bd + r);
  }

  /** One part is read back byte for byte, and the machine is ready for the next. */
  lemma ReadsPart(item: Item, names: Names, r: string, maps: Maps, bd: string)
    requires Fits(item, bd) && Spelled(names) && '\r' !in bd && r != []
    ensures Run(Start(PartText(item, names, bd) + ("--" + bd + r), maps), bd)
         == Run(Start("--" + bd + r, Store(item, maps)), bd)
  {
    hide Run;
    hide ScanDisposition;
    hide Quotable;
    hide Contains;
    var data := item.value + (CRLF + "--" + bd) + r;
    var m0 := Start(PartText(item, names, bd) + ("--" + bd + r), maps);
    var head := Header(item, names);
    PartSplits(item, names, bd, r);
    hide Header;
    hide PartText;
    hide Fits;
    hide Step;
    ReadsBoundary(m0, head + (CRLF + data), bd);
    var m1 := m0.(state := EndBoundary, rest := head + (CRLF + data));
    if item.Field? {
      ReadsField(m1, maps, item, names, data, r, bd);
    } else {
      ReadsFile(m1, maps, item, names, data, r, bd);
    }
  }

  lemma ReadsField(m1: Machine, maps: Maps, item: Item, names: Names, data: string, r: string, bd: string)
    requires item.Field? && Fits(item, bd) && Spelled(names) && '\r' !in bd && r != []
    requires m1 == Start(m1.rest, maps).(state := EndBoundary) && m1.rest == Header(item, names) + (CRLF + data)
    requires data == item.value + (CRLF + "--" + bd) + r
    ensures Run(m1, bd) == Run(Start("--" + bd + r, Store(item, maps)), bd)
  {
    hide Run;
    hide ScanDisposition;
    hide Quotable;
    hide Contains;
    var name := item.name;
    var line := "name=\"" + name + "\"" + (CRLF + (CRLF + data));
    FieldHead(name, names, CRLF + data);
    FieldLine(name, CRLF + data);
    ReadsDisposition(m1, names, line, CRLF + data, name, "", bd);
    var m2 := m1.(state := EndDisposition, rest := CRLF + data, name := name, fileName := "");
    ReadsEmptyLine(m2, data, bd);
    ReadsData(m2.(state := StartData, rest := data, fileMark := false), item.value, r, bd);
  }

  lemma ReadsFile(m1: Machine, maps: Maps, item: Item, names: Names, data: string, r: string, bd: string)
    requires item.File? && Fits(item, bd) && Spelled(names) && '\r' !in bd && r != []
    requires m1 == Start(m1.rest, maps).(state := EndBoundary) && m1.rest == Header(item, names) + (CRLF + data)
    requires data == item.value + (CRLF + "--" + bd) + r
    ensures Run(m1, bd) == Run(Start("--" + bd + r, Store(item, maps)), bd)
  {
    hide Run;
    hide ScanDisposition;
    hide Quotable;
    hide Contains;
    var File(name, fileName, fileType, value) := item;
    var typed := names.contentType + ": " + (fileType + CRLF + (CRLF + data));
    var line := "name=\"" + name + "\"" + ("; filename=\"" + fileName + "\"" + (CRLF + typed));
    FileHead(name, fileName, fileType, names, data);
    FileLine(name, fileName, typed);
    ReadsDisposition(m1, names, line, typed, name, fileName, bd);
    var m2 := m1.(state := EndDisposition, rest := typed, name := name, fileName := fileName);
    ReadsType(m2, names, fileType, data, bd);
    ReadsData(m2.(state := StartData, rest := data, fileType := fileType, fileMark := true), value, r, bd);
  }

  lemma FieldHead(name: string, names: Names, r: string)
    ensures Header(Field(name, ""), names) + r
         == names.disposition + FORM_DATA + ("name=\"" + name + "\"" + (CRLF + r))
  {
  }

  lemma FileHead(name: string, fileName: string, fileType: string, names: Names, data: string)
    ensures Header(File(name, fileName, fileType, ""), names) + (CRLF + data)
         == names.disposition + FORM_DATA
            + ("name=\"" + name + "\""
               + ("; filename=\"" + fileName + "\""
                  + (CRLF + (names.contentType + ": " + (fileType + CRLF + (CRLF + data))))))
  {
    var a, b := "name=\"" + name + "\"", "; filename=\"" + fileName + "\"";
    var c := names.contentType + ": " + fileType + CRLF;
    assert c + (CRLF + data) == names.contentType + ": " + (fileType + CRLF + (CRLF + data));
    Regroup(names.disposition + FORM_DATA, a, b, CRLF, c, CRLF + data);
  }

  lemma Regroup(o: string, a: string, b: string, c: string, d: string, e: string)
    ensures o + a + b + c + d + e == o + (a + (b + (c + (d + e))))
  {
  }

  /** The closing boundary ends the run. */
  lemma ReadsEnd(maps: Maps, bd: string)
    ensures Run(Start("--" + bd + "--" + CRLF, maps), bd) == Some(maps)
  {
    hide Run;
    var m := Start("--" + bd + "--" + CRLF, maps);
    var t := m.(state := StartBoundary, rest := bd + "--" + CRLF);
    StartsWithPair(m.rest, "--");
    assert m.rest[0] == '-' && m.rest[1] == '-' && m.rest[2..] == t.rest;
    Goes(m, t, bd);
    var s := t.rest[|bd|..];
    assert StartsWith(t.rest, bd) && s == "--" + CRLF;
    StartsWithPair(s, CRLF);
    StartsWithPair(s, "--");
    assert s[0] == '-' && s[1] == '-' && s[2..] == CRLF;
    var u := t.(state := EndBody, rest := CRLF);
    Goes(t, u, bd);
    assert Drop(u.rest, 2) == "";
    Goes(u, u.(rest := ""), bd);
    RunEnds(u.(rest := ""), bd);
  }

  lemma RenderOpens(items: seq<Item>, names: seq<Names>, bd: string) returns (r: string)
    requires |names| == |items|
    ensures r != [] && Render(items, names, bd) == "--" + bd + r
  {
    if items == [] {
      r := "--" + CRLF;
    } else {
      var part := CRLF + Header(items[0], names[0]) + CRLF + items[0].value + CRLF;
      r := part + Render(items[1..], names[1..], bd);
      assert "--" + bd + part + Render(items[1..], names[1..], bd) == "--" + bd + r;
    }
  }

  /**
   Every list of parts comes back from its rendered body: names, file names, types
   and data byte for byte. The last field of a name wins, and the first file. Each part
   may spell its two header names in whatever case.
   */
  lemma {:induction false} RenderReadsBack(items: seq<Item>, names: seq<Names>, maps: Maps, bd: string)
    requires |names| == |items| && '\r' !in bd
    requires forall i :: 0 <= i < |items| ==> Fits(items[i], bd) && Spelled(names[i])
    ensures Run(Start(Render(items, names, bd), maps), bd) == Some(StoreAll(items, maps))
  {
    hide Run;
    if items == [] {
      ReadsEnd(maps, bd);
    } else {
      var r := RenderOpens(items[1..], names[1..], bd);
      ReadsPart(items[0], names[0], r, maps, bd);
      RenderReadsBack(items[1..], names[1..], Store(items[0], maps), bd);
    }
  }

  /** The same on the code's own loop, which therefore ends on every rendered body. */
  method ParseRendered(parser: HttpMultiPart, items: seq<Item>, names: seq<Names>)
    requires |names| == |items| && '\r' !in parser.bd
    requires forall i :: 0 <= i < |items| ==> Fits(items[i], parser.bd) && Spelled(names[i])
    modifies parser
    ensures parser.View() == StoreAll(items, old(parser.View()))
  {
    var body := Render(items, names, parser.bd);
    RenderReadsBack(items, names, parser.View(), parser.bd);
    BodyReadsExactly(body, parser.View(), parser.bd);
    parser.Parse(body);
  }

  // ---- what the maps then hold ----

  /** A field name has the value of its last field. */
  lemma {:induction false} StoreAllSets(items: seq<Item>, maps: Maps, i: nat)
    requires i < |items| && items[i].Field?
    requires forall j :: i < j < |items| && items[j].Field? ==> items[j].name != items[i].name
    ensures var form := StoreAll(items, maps).form;
            items[i].name in form && form[items[i].name] == items[i].value
    decreases |items|
  {
    if i == 0 {
      StoreAllKeeps(items[1..], Store(items[0], maps), items[0].name);
    } else {
      StoreAllSets(items[1..], Store(items[0], maps), i - 1);
    }
  }

  /** A name of no field keeps what the form held. */
  lemma {:induction false} StoreAllKeeps(items: seq<Item>, maps: Maps, name: string)
    requires forall j :: 0 <= j < |items| && items[j].Field? ==> items[j].name != name
    ensures var form := StoreAll(items, maps).form;
            (name in form <==> name in maps.form) && (name in form ==> form[name] == maps.form[name])
    decreases |items|
  {
    if items != [] {
      StoreAllKeeps(items[1..], Store(items[0], maps), name);
    }
  }

  /** A file name has its first file, and that one only. */
  lemma {:induction false} StoreAllFirstFile(items: seq<Item>, maps: Maps, i: nat)
    requires i < |items| && items[i].File? && items[i].name !in maps.files
    requires forall j :: 0 <= j < i && items[j].File? ==> items[j].name != items[i].name
    ensures var item, files := items[i], StoreAll(items, maps).files;
            && item.name in files
            && files[item.name] == [Part(item.name, item.fileName, item.fileType, item.value)]
    decreases |items|
  {
    if i == 0 {
      FilesStay(items[1..], Store(items[0], maps), items[0].name);
    } else {
      StoreAllFirstFile(items[1..], Store(items[0], maps), i - 1);
    }
  }

  /** Once there, the files of a name stay as they are, and a name of no file stays unknown. */
  lemma {:induction false} FilesStay(items: seq<Item>, maps: Maps, name: string)
    requires name in maps.files || forall j :: 0 <= j < |items| && items[j].File? ==> items[j].name != name
    ensures var files := StoreAll(items, maps).files;
            (name in files <==> name in maps.files) && (name in files ==> files[name] == maps.files[name])
    decreases |items|
  {
    if items != [] {
      FilesStay(items[1..], Store(items[0], maps), name);
    }
  }

  /** The loop does not end on every body: text in front of the first boundary keeps it where it is. */
  lemma PreambleNeverEnds(body: string, maps: Maps, bd: string)
    requires body != "" && !StartsWith(body, "--")
    ensures Run(Start(body, maps), bd) == None
    ensures forall n: nat :: Turns(Start(body, maps), bd, n).rest != []
  {
    assert StartsWith(body, "--") <==> |body| >= 2 && body[0] == '-' && body[1] == '-' by {
      StartsWithPair(body, "--");
    }
    LoopEndsExactly(Start(body, maps), bd);
  }
}
