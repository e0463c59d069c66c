/** When a single multipart part comes back from its rendered body: exactly when it `Fits`. */
module MultiPartExactly {
  import opened Common
  import opened HttpMultiPart
  import opened MultiPartRoundTrip

  const NO_MAPS := Maps(map[], map[])

  // ---- what a disposition line yields for a text that cannot stand between quotes ----

  lemma {:induction false} ScanTakesNoQuote(r: string, name: string, fileName: string, started: bool, isName: bool)
    requires '\"' !in name && '\"' !in fileName
    ensures var d := ScanDisposition(r, name, fileName, started, isName); '\"' !in d.name && '\"' !in d.fileName
    decreases |r|
  {
    if r == [] || StartsWith(r, CRLF) {
    } else if StartsWith(r, "=\"") {
      ScanTakesNoQuote(r[2..], name, fileName, true, isName);
    } else if r[0] == '\"' {
      ScanTakesNoQuote(r[1..], name, fileName, false, !isName);
    } else {
      ScanTakesNoQuote(r[1..], if started && isName then name + [r[0]] else name,
                       if started && !isName then fileName + [r[0]] else fileName, started, isName);
    }
  }

  /** It adds to what it has, and no more than the line is long. */
  lemma {:induction false} ScanAdds(r: string, name: string, fileName: string, started: bool, isName: bool)
    ensures var d := ScanDisposition(r, name, fileName, started, isName);
            && name <= d.name && |d.name| <= |name| + LineLength(r)
            && fileName <= d.fileName && |d.fileName| <= |fileName| + LineLength(r)
    decreases |r|
  {
    if r == [] || StartsWith(r, CRLF) {
    } else if StartsWith(r, "=\"") {
      ScanAdds(r[2..], name, fileName, true, isName);
      StartsWithPair(r, "=\"");
      StartsWithPair(r[1..], CRLF);
      assert r[1..][1..] == r[2..];
    } else if r[0] == '\"' {
      ScanAdds(r[1..], name, fileName, false, !isName);
    } else {
      var n := if started && isName then name + [r[0]] else name;
      var f := if started && !isName then fileName + [r[0]] else fileName;
      ScanAdds(r[1..], n, f, started, isName);
      assert name <= n && fileName <= f;
    }
  }

  lemma {:induction false} LineEarly(w: string, r: string)
    requires Contains(w, CRLF)
    ensures LineLength(w + r) < |w|
    decreases |w|
  {
    var k :| 0 <= k <= |w| && StartsWith(w[k..], CRLF);
    StartsWithPair(w[k..], CRLF);
    StartsWithPair(w + r, CRLF);
    if !StartsWith(w + r, CRLF) {
      assert k > 0 by {
        assert w[0..] == w && (w + r)[..2] == w[..2];
      }
      assert w[1..][k - 1..] == w[k..];
      assert (w + r)[1..] == w[1..] + r;
      LineEarly(w[1..], r);
    }
  }

  /** Characters that are neither quoted nor end the line are collected. */
  lemma {:induction false} ScanChars(u: string, r: string, name: string, fileName: string, isName: bool)
    requires '\"' !in u && !Contains(u, CRLF) && r != [] && r[0] != '\"' && r[0] != '\n'
    ensures ScanDisposition(u + r, name, fileName, true, isName) ==
            if isName then ScanDisposition(r, name + u, fileName, true, isName)
            else ScanDisposition(r, name, fileName + u, true, isName)
    decreases |u|
  {
    var all := u + r;
    if u == [] {
      assert all == r && name + u == name && fileName + u == fileName;
    } else {
      var c, v := u[0], u[1..];
      assert all[0] == c && all[1..] == v + r;
      assert all[1] == if v == [] then r[0] else u[1];
      StartsWithPair(all, CRLF);
      StartsWithPair(all, "=\"");
      StartsWithPair(u, CRLF);
      if StartsWith(u, CRLF) {
        ContainsFront(u, CRLF);
      }
      if Contains(v, CRLF) {
        ContainsLonger(u, CRLF);
      }
      assert name + [c] + v == name + u && fileName + [c] + v == fileName + u;
      if isName {
        ScanChars(v, r, name + [c], fileName, isName);
      } else {
        ScanChars(v, r, name, fileName + [c], isName);
      }
    }
  }

  /** The opening sequence, met inside a text, is skipped. */
  lemma ScanInner(r: string, name: string, fileName: string, isName: bool)
    ensures ScanDisposition("=\"" + r, name, fileName, true, isName) == ScanDisposition(r, name, fileName, true, isName)
  {
    var all := "=\"" + r;
    StartsWithPair(all, CRLF);
    StartsWithPair(all, "=\"");
    assert all[0] == '=' && all[1] == '\"' && all[2..] == r;
  }

  /** What is behind the closing quote here: the end of the line, or the next key. */
  predicate Behind(r: string) { StartsWith(r, CRLF) || (r != [] && r[0] == ';') }

  /** A text that cannot stand between quotes is not what the scan makes of it. */
  lemma ScanMisreads(w: string, r: string, name: string, isName: bool)
    requires !Quotable(w) && Behind(r) && '\"' !in name
    ensures var d := ScanDisposition(w + "\"" + r, if isName then "" else name, "", true, isName);
            if isName then d.name != w else d.fileName != w
  {
    var all, start := w + "\"" + r, if isName then "" else name;
    if '\"' in w {
      ScanTakesNoQuote(all, start, "", true, isName);
    } else if Contains(w, CRLF) {
      LineEarly(w, "\"" + r);
      assert w + ("\"" + r) == all;
      ScanAdds(all, start, "", true, isName);
    } else {
      TrailingEquals(w, r, start, isName);
    }
  }

  lemma TrailingEquals(w: string, r: string, start: string, isName: bool)
    requires '\"' !in w && !Contains(w, CRLF) && w != [] && w[|w| - 1] == '=' && Behind(r)
    requires isName ==> start == ""
    ensures var d := ScanDisposition(w + "\"" + r, start, "", true, isName);
            if isName then d.name != w else d.fileName != w
  {
    hide ScanDisposition;
    var u := w[..|w| - 1];
    assert w == u + "=";
    assert w + "\"" + r == u + ("=\"" + r);
    if Contains(u, CRLF) {
      ContainsIn(u, "=", CRLF);
    }
    hide Contains;
    hide Behind;
    ScanChars(u, "=\"" + r, start, "", isName);
    var n, f := if isName then start + u else start, if isName then "" else "" + u;
    ScanInner(r, n, f, isName);
    ScanBehind(u, r, n, f, isName);
  }

  /** Behind an unclosed text the line ends, or a semicolon is collected. */
  lemma ScanBehind(u: string, r: string, n: string, f: string, isName: bool)
    requires Behind(r) && u == if isName then n else f
    ensures var d := ScanDisposition(r, n, f, true, isName);
            if isName then d.name != u + "=" else d.fileName != u + "="
  {
    StartsWithPair(r, CRLF);
    StartsWithPair(r, "=\"");
    if !StartsWith(r, CRLF) {
      var n2, f2 := if isName then n + ";" else n, if isName then f else f + ";";
      assert ScanDisposition(r, n, f, true, isName) == ScanDisposition(r[1..], n2, f2, true, isName);
      hide ScanDisposition;
      ScanAdds(r[1..], n2, f2, true, isName);
      Differs(u, ScanDisposition(r[1..], n2, f2, true, isName), isName);
    }
  }

  lemma Differs(u: string, d: Disposition, isName: bool)
    requires if isName then u + ";" <= d.name else u + ";" <= d.fileName
    ensures if isName then d.name != u + "=" else d.fileName != u + "="
  {
    var s := if isName then d.name else d.fileName;
    assert s[|u|] == (u + ";")[|u|];
    assert (u + "=")[|u|] == '=';
  }

  lemma ContainsIn(u: string, v: string, p: string)
    requires Contains(u, p)
    ensures Contains(u + v, p)
  {
    var k :| 0 <= k <= |u| && StartsWith(u[k..], p);
    assert (u + v)[k..] == u[k..] + v;
    assert (u[k..] + v)[..|p|] == u[k..][..|p|];
  }

  // ---- evidence that the result will be another one ----

  predicate AfterLine(s: State) {
    s.EndDisposition? || s.StartType? || s.EndType? || s.StartData? || s.EndData?
  }

  predicate TypeRead(s: State) { s.EndType? || s.StartData? || s.EndData? }

  /** What is left, with all the data it can still hold: the next part has a boundary and a line in front. */
  function Potential(m: Machine, bd: string): int {
    |m.rest| + |m.data| -
    match m.state
    case StartBody => |bd| + 23
    case StartBoundary => |bd| + 21
    case EndBoundary => 19
    case EndBody => 19
    case _ => 0
  }

  /** The part in hand differs from `item`, and nothing has been stored yet. */
  predicate Pending(m: Machine, item: Item) {
    && m.form == map[] && m.files == map[] && AfterLine(m.state)
    && (|| m.name != item.name
        || (item.File? && m.fileName != item.fileName)
        || (item.File? && TypeRead(m.state) && m.fileType != item.fileType)
        || (item.File? && m.state.EndData? && m.data != item.value))
  }

  /** Something has been stored that `item` does not account for. */
  predicate Stored(m: Machine, item: Item) {
    || (exists k :: k in m.form && k != item.name)
    || (exists k :: k in m.files && k != item.name)
    || (item.Field? && m.files != map[])
    || (item.File? && m.form != map[])
    || (item.File? && item.name in m.files
        && m.files[item.name] != [Part(item.name, item.fileName, item.fileType, item.value)])
  }

  /** All fields stored, and all that can still be, are shorter than the value of `item`. */
  predicate Short(m: Machine, item: Item, bd: string) {
    && item.Field? && Potential(m, bd) < |item.value|
    && forall k :: k in m.form ==> |m.form[k]| < |item.value|
  }

  predicate Spoiled(m: Machine, item: Item, bd: string) {
    Pending(m, item) || Stored(m, item) || Short(m, item, bd)
  }

  lemma StoredStays(m: Machine, item: Item, bd: string)
    requires m.rest != [] && Stored(m, item)
    ensures Stored(Step(m, bd), item)
  {
    hide ScanDisposition;
    hide LineLength;
    hide DataLength;
    var t := Step(m, bd);
    assert forall k :: k in m.form ==> k in t.form;
    assert forall k :: k in m.files ==> k in t.files && t.files[k] == m.files[k];
  }

  lemma PendingStays(m: Machine, item: Item, bd: string)
    requires m.rest != [] && Pending(m, item)
    ensures Pending(Step(m, bd), item) || Stored(Step(m, bd), item)
  {
    hide ScanDisposition;
    hide LineLength;
    hide DataLength;
    var t := Step(m, bd);
    if m.state.EndData? {
      assert if m.fileMark then m.name in t.files else m.name in t.form;
    }
  }

  lemma PotentialFalls(m: Machine, bd: string)
    requires m.rest != []
    ensures Potential(Step(m, bd), bd) <= Potential(m, bd)
  {
    hide ScanDisposition;
    hide LineLength;
    hide DataLength;
  }

  lemma ShortStays(m: Machine, item: Item, bd: string)
    requires m.rest != [] && Short(m, item, bd)
    ensures Short(Step(m, bd), item, bd)
  {
    PotentialFalls(m, bd);
    hide Potential;
    hide ScanDisposition;
    hide LineLength;
    hide DataLength;
    if m.state.EndData? {
      DataIsPart(m, bd);
    }
  }

  lemma DataIsPart(m: Machine, bd: string)
    requires m.state.EndData?
    ensures |m.data| <= Potential(m, bd)
  {
  }

  /** Then the maps at the end are not those of the item alone. */
  lemma {:induction false} SpoiledEnds(m: Machine, item: Item, bd: string)
    requires Spoiled(m, item, bd)
    ensures Run(m, bd) != Some(StoreAll([item], NO_MAPS))
    decreases |m.rest|, if m.state.EndData? then 1 else 0
  {
    if m.rest == [] {
      RunEnds(m, bd);
      SpoiledDiffers(m, item, bd);
    } else if Run(m, bd).Some? {
      RunStep(m, bd);
      if Stored(m, item) {
        StoredStays(m, item, bd);
      } else if Pending(m, item) {
        PendingStays(m, item, bd);
      } else {
        ShortStays(m, item, bd);
      }
      hide Step;
      hide Run;
      hide Pending;
      hide Stored;
      hide Short;
      SpoiledEnds(Step(m, bd), item, bd);
    }
  }

  lemma OneStored(item: Item)
    ensures StoreAll([item], NO_MAPS) == Store(item, NO_MAPS)
  {
    assert [item][1..] == [];
  }

  lemma SpoiledDiffers(m: Machine, item: Item, bd: string)
    requires Spoiled(m, item, bd)
    ensures Maps(m.form, m.files) != StoreAll([item], NO_MAPS)
  {
    OneStored(item);
    var maps := Store(item, NO_MAPS);
    assert if item.Field? then item.name in maps.form else item.name in maps.files;
  }

  // ---- the machine on the parts that do not fit ----

  lemma DispositionStep(m: Machine, names: Names, line: string, bd: string)
    requires m.state.EndBoundary? && m.rest == names.disposition + FORM_DATA + line && Spelled(names)
    ensures var d := ScanDisposition(line, m.name, m.fileName, false, true);
            Run(m, bd) == Run(m.(state := if d.found then EndDisposition else StartDisposition,
                                 rest := d.rest, name := d.name, fileName := d.fileName), bd)
  {
    hide Run;
    hide ScanDisposition;
    var d := ScanDisposition(line, m.name, m.fileName, false, true);
    var t := m.(state := StartDisposition, rest := FORM_DATA + line);
    assert m.rest == names.disposition + t.rest;
    assert m.rest[19..] == t.rest && m.rest[..19] == names.disposition;
    AnyCaseExactly(m.rest, "Content-Disposition");
    Goes(m, t, bd);
    assert Drop(t.rest, 13) == line;
    Goes(t, m.(state := if d.found then EndDisposition else StartDisposition,
               rest := d.rest, name := d.name, fileName := d.fileName), bd);
  }

  /** A line that is misread spoils the result. */
  lemma LineSpoils(m: Machine, item: Item, names: Names, line: string, bd: string)
    requires m.state.EndBoundary? && m.rest == names.disposition + FORM_DATA + line && Spelled(names)
    requires m.name == m.fileName == "" && m.form == map[] && m.files == map[]
    requires var d := ScanDisposition(line, "", "", false, true);
             d.name != item.name || (item.File? && d.fileName != item.fileName)
    ensures Run(m, bd) != Some(StoreAll([item], NO_MAPS))
  {
    hide ScanDisposition;
    hide Run;
    DispositionStep(m, names, line, bd);
    var d := ScanDisposition(line, "", "", false, true);
    var t := m.(state := if d.found then EndDisposition else StartDisposition,
                rest := d.rest, name := d.name, fileName := d.fileName);
    if d.found {
      assert Pending(t, item);
      SpoiledEnds(t, item, bd);
    } else {
      RunEnds(t, bd);
      OneStored(item);
      assert if item.Field? then item.name in Store(item, NO_MAPS).form else item.name in Store(item, NO_MAPS).files;
    }
  }

  /** The line of a part whose name cannot stand between quotes. */
  lemma NameMisread(name: string, r: string)
    requires !Quotable(name) && Behind(r)
    ensures ScanDisposition("name=\"" + name + "\"" + r, "", "", false, true).name != name
  {
    hide ScanDisposition;
    hide Quotable;
    var quoted := name + "\"" + r;
    assert "name=\"" + name + "\"" + r == "name" + ("=\"" + quoted);
    ScanPlain("name", "=\"" + quoted, "", "", true);
    ScanOpening(quoted, "", "", true);
    ScanMisreads(name, r, "", true);
  }

  lemma FileNameMisread(name: string, fileName: string, r: string)
    requires Quotable(name) && !Quotable(fileName) && StartsWith(r, CRLF)
    ensures ScanDisposition("name=\"" + name + "\"" + ("; filename=\"" + fileName + "\"" + r),
                            "", "", false, true).fileName
         != fileName
  {
    hide ScanDisposition;
    var quoted := fileName + "\"" + r;
    var tail := "; filename=\"" + fileName + "\"" + r;
    assert '\"' !in name;
    hide Quotable;
    assert "name=\"" + name + "\"" + tail == "name" + "=\"" + name + "\"" + tail;
    ScanPiece("name", name, tail, "", "", true);
    assert tail == "; filename" + ("=\"" + quoted);
    ScanPlain("; filename", "=\"" + quoted, "" + name, "", false);
    ScanOpening(quoted, "" + name, "", false);
    ScanMisreads(fileName, r, "" + name, false);
  }

  lemma {:induction false} DataEarly(w: string, r: string, bd: string)
    requires Contains(w, CRLF + "--" + bd) && r != []
    ensures DataLength(w + r, bd) < |w|
    decreases |w|
  {
    var delim := CRLF + "--" + bd;
    var k :| 0 <= k <= |w| && StartsWith(w[k..], delim);
    if k == 0 {
      assert w[0..] == w && (w + r)[..|delim|] == w[..|delim|];
      assert AtDelimiter(w + r, bd);
    } else if !AtDelimiter(w + r, bd) {
      assert w[1..][k - 1..] == w[k..];
      assert (w + r)[1..] == w[1..] + r;
      DataEarly(w[1..], r, bd);
    }
  }

  /** The rest of a body with one part, from its data on. */
  function Tail(item: Item, bd: string): string { item.value + (CRLF + "--" + bd) + ("--" + CRLF) }

  /** The machine behind the boundary line of a body with one part. */
  lemma OnePartOpens(item: Item, names: Names, bd: string) returns (m: Machine)
    ensures m == Start(Header(item, names) + (CRLF + Tail(item, bd)), NO_MAPS).(state := EndBoundary)
    ensures Run(Start(Render([item], [names], bd), NO_MAPS), bd) == Run(m, bd)
  {
    hide Run;
    var r := "--" + CRLF;
    OneRendered(item, names, bd);
    PartSplits(item, names, bd, r);
    hide Header;
    hide PartText;
    hide Render;
    var m0 := Start(PartText(item, names, bd) + ("--" + bd + r), NO_MAPS);
    ReadsBoundary(m0, Header(item, names) + (CRLF + Tail(item, bd)), bd);
    m := m0.(state := EndBoundary, rest := Header(item, names) + (CRLF + Tail(item, bd)));
  }

  lemma OneRendered(item: Item, names: Names, bd: string)
    ensures Render([item], [names], bd) == PartText(item, names, bd) + ("--" + bd + ("--" + CRLF))
  {
    hide PartText;
    assert [item][1..] == [] && [names][1..] == [];
    assert "--" + bd + "--" + CRLF == "--" + bd + ("--" + CRLF);
  }

  /** A name that does not fit. */
  lemma NameSpoils(item: Item, names: Names, m: Machine, bd: string)
    requires m == Start(Header(item, names) + (CRLF + Tail(item, bd)), NO_MAPS).(state := EndBoundary)
    requires Spelled(names) && !Quotable(item.name)
    ensures Run(m, bd) != Some(StoreAll([item], NO_MAPS))
  {
    hide Run;
    hide ScanDisposition;
    hide Quotable;
    hide Tail;
    var name, data := item.name, Tail(item, bd);
    if item.Field? {
      FieldHead(name, names, CRLF + data);
      NameMisread(name, CRLF + (CRLF + data));
      LineSpoils(m, item, names, "name=\"" + name + "\"" + (CRLF + (CRLF + data)), bd);
    } else {
      var typed := names.contentType + ": " + (item.fileType + CRLF + (CRLF + data));
      var r := "; filename=\"" + item.fileName + "\"" + (CRLF + typed);
      FileHead(name, item.fileName, item.fileType, names, data);
      NameMisread(name, r);
      LineSpoils(m, item, names, "name=\"" + name + "\"" + r, bd);
    }
  }

  lemma FileNameSpoils(item: Item, names: Names, m: Machine, bd: string)
    requires m == Start(Header(item, names) + (CRLF + Tail(item, bd)), NO_MAPS).(state := EndBoundary)
    requires Spelled(names) && item.File? && Quotable(item.name) && !Quotable(item.fileName)
    ensures Run(m, bd) != Some(StoreAll([item], NO_MAPS))
  {
    hide Run;
    hide ScanDisposition;
    hide Quotable;
    hide Tail;
    var data := Tail(item, bd);
    var typed := names.contentType + ": " + (item.fileType + CRLF + (CRLF + data));
    FileHead(item.name, item.fileName, item.fileType, names, data);
    FileNameMisread(item.name, item.fileName, CRLF + typed);
    var second := "; filename=\"" + item.fileName + "\"" + (CRLF + typed);
    LineSpoils(m, item, names, "name=\"" + item.name + "\"" + second, bd);
  }

  /** The machine behind a disposition line that fits. */
  lemma LineRead(item: Item, names: Names, m: Machine, bd: string) returns (t: Machine)
    requires m == Start(Header(item, names) + (CRLF + Tail(item, bd)), NO_MAPS).(state := EndBoundary)
    requires Spelled(names) && Quotable(item.name) && (item.File? ==> Quotable(item.fileName))
    ensures var rest := if item.Field? then CRLF + Tail(item, bd)
                        else names.contentType + ": " + (item.fileType + CRLF + (CRLF + Tail(item, bd)));
            t == m.(state := EndDisposition, rest := rest, name := item.name,
                    fileName := if item.Field? then "" else item.fileName)
    ensures Run(m, bd) == Run(t, bd)
  {
    hide Run;
    hide ScanDisposition;
    hide Quotable;
    hide Tail;
    var name, data := item.name, Tail(item, bd);
    if item.Field? {
      FieldHead(name, names, CRLF + data);
      FieldLine(name, CRLF + data);
      ReadsDisposition(m, names, "name=\"" + name + "\"" + (CRLF + (CRLF + data)), CRLF + data, name, "", bd);
      t := m.(state := EndDisposition, rest := CRLF + data, name := name, fileName := "");
    } else {
      var typed := names.contentType + ": " + (item.fileType + CRLF + (CRLF + data));
      var line := "name=\"" + name + "\"" + ("; filename=\"" + item.fileName + "\"" + (CRLF + typed));
      FileHead(name, item.fileName, item.fileType, names, data);
      FileLine(name, item.fileName, typed);
      ReadsDisposition(m, names, line, typed, name, item.fileName, bd);
      t := m.(state := EndDisposition, rest := typed, name := name, fileName := item.fileName);
    }
  }

  lemma TypeStarts(m: Machine, names: Names, text: string, bd: string)
    requires m.state.EndDisposition? && m.rest == names.contentType + ": " + text && Spelled(names)
    ensures Run(m, bd) == Run(m.(state := StartType, rest := text, fileMark := true), bd)
  {
    hide Run;
    var t := m.(state := StartType, rest := text, fileMark := true);
    StartsWithPair(m.rest, CRLF);
    assert m.rest[0] == names.contentType[0] && SameLetter(m.rest[0], 'C');
    assert m.rest[..12] == names.contentType;
    AnyCaseExactly(m.rest, "Content-Type");
    assert Drop(m.rest, 14) == t.rest;
    Goes(m, t, bd);
  }

  lemma TypeEnds(m: Machine, n: nat, bd: string)
    requires m.state.StartType? && n == LineLength(m.rest) < |m.rest|
    ensures Run(m, bd) == Run(m.(state := EndType, rest := m.rest[n + 2..], fileType := m.fileType + m.rest[..n]), bd)
  {
    hide Run;
    hide LineLength;
    Goes(m, m.(state := EndType, rest := m.rest[n + 2..], fileType := m.fileType + m.rest[..n]), bd);
  }

  lemma TypeSpoils(item: Item, names: Names, m: Machine, bd: string)
    requires Spelled(names) && item.File? && Contains(item.fileType, CRLF)
    requires m.state.EndDisposition?
    requires m.rest == names.contentType + ": " + (item.fileType + CRLF + (CRLF + Tail(item, bd)))
    requires m.fileType == "" && m.form == map[] && m.files == map[]
    ensures Run(m, bd) != Some(StoreAll([item], NO_MAPS))
  {
    hide Run;
    hide LineLength;
    hide Tail;
    hide Step;
    hide StoreAll;
    var behind := CRLF + (CRLF + Tail(item, bd));
    var text := item.fileType + CRLF + (CRLF + Tail(item, bd));
    assert item.fileType + behind == text;
    LineEarly(item.fileType, behind);
    hide Contains;
    TypeStarts(m, names, text, bd);
    var t, n := m.(state := StartType, rest := text, fileMark := true), LineLength(text);
    TypeEnds(t, n, bd);
    var u := t.(state := EndType, rest := text[n + 2..], fileType := t.fileType + text[..n]);
    assert |u.fileType| == n;
    SpoiledEnds(u, item, bd);
  }

  /** The machine at the data, all before which fits. */
  lemma DataReached(item: Item, names: Names, m: Machine, bd: string) returns (t: Machine)
    requires Spelled(names) && m.state.EndDisposition? && m.fileType == "" && m.data == ""
    requires if item.Field? then m.rest == CRLF + Tail(item, bd)
             else m.rest == names.contentType + ": " + (item.fileType + CRLF + (CRLF + Tail(item, bd)))
                  && !Contains(item.fileType, CRLF)
    ensures t.state.StartData? && t.rest == Tail(item, bd) && t.fileMark == item.File?
    ensures t.form == m.form && t.files == m.files && t.data == ""
    ensures Run(m, bd) == Run(t, bd)
  {
    hide Run;
    hide Tail;
    hide Contains;
    if item.Field? {
      ReadsEmptyLine(m, Tail(item, bd), bd);
      t := m.(state := StartData, rest := Tail(item, bd), fileMark := false);
    } else {
      ReadsType(m, names, item.fileType, Tail(item, bd), bd);
      t := m.(state := StartData, rest := Tail(item, bd), fileType := item.fileType, fileMark := true);
    }
  }

  /** Data that holds the delimiter is cut at its first. */
  lemma DataSpoils(item: Item, m: Machine, bd: string)
    requires Contains(item.value, CRLF + "--" + bd)
    requires m.state.StartData? && m.rest == Tail(item, bd) && m.fileMark == item.File?
    requires m.form == map[] && m.files == map[]
    ensures Run(m, bd) != Some(StoreAll([item], NO_MAPS))
  {
    hide Run;
    hide DataLength;
    var r := CRLF + "--" + bd + ("--" + CRLF);
    assert m.rest == item.value + r;
    DataEarly(item.value, r, bd);
    hide Contains;
    var n := DataLength(m.rest, bd);
    var t := m.(state := EndData, rest := m.rest[n + 2..], data := m.rest[..n]);
    Goes(m, t, bd);
    assert |t.data| == n < |item.value|;
    if item.File? {
      assert Pending(t, item);
      SpoiledEnds(t, item, bd);
    } else {
      CutFieldSpoils(item, t, bd);
    }
  }

  lemma CutFieldSpoils(item: Item, t: Machine, bd: string)
    requires item.Field? && t.state.EndData? && !t.fileMark && t.form == map[] && t.files == map[]
    requires |t.data| < |item.value| && |t.rest| + |t.data| <= |item.value| + |bd| + 6
    ensures Run(t, bd) != Some(StoreAll([item], NO_MAPS))
  {
    hide Run;
    if t.rest == [] {
      RunEnds(t, bd);
      OneStored(item);
      assert item.name in Store(item, NO_MAPS).form;
    } else {
      var u := Step(t, bd);
      Goes(t, u, bd);
      assert u == Machine(StartBody, t.rest, "", "", "", "", false, map[][t.name := t.data], map[]);
      assert Short(u, item, bd);
      SpoiledEnds(u, item, bd);
    }
  }

  /** A body of one part comes back exactly when its part fits. */
  lemma PartExactly(item: Item, names: Names, bd: string)
    requires Spelled(names) && '\r' !in bd
    ensures Run(Start(Render([item], [names], bd), NO_MAPS), bd) == Some(StoreAll([item], NO_MAPS)) <==> Fits(item, bd)
  {
    hide Run;
    hide Render;
    hide StoreAll;
    hide Quotable;
    hide Contains;
    hide Tail;
    if Fits(item, bd) {
      RenderReadsBack([item], [names], NO_MAPS, bd);
    } else {
      var m := OnePartOpens(item, names, bd);
      if !Quotable(item.name) {
        NameSpoils(item, names, m, bd);
      } else if item.File? && !Quotable(item.fileName) {
        FileNameSpoils(item, names, m, bd);
      } else {
        var t := LineRead(item, names, m, bd);
        if item.File? && Contains(item.fileType, CRLF) {
          TypeSpoils(item, names, t, bd);
        } else {
          var u := DataReached(item, names, t, bd);
          DataSpoils(item, u, bd);
        }
      }
    }
  }
}
