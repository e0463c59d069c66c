/**
 The ten-state machine that reads a `multipart/form-data` body, proved equal to a
 step function on the text left, and the bodies it reads back.
 */
module HttpMultiPart {
  import opened Common

  datatype Part = Part(name: string, fileName: string, fileType: string, data: string)

  datatype State =
    | StartBody
    | StartBoundary
    | EndBoundary
    | StartDisposition
    | EndDisposition
    | StartType
    | EndType
    | StartData
    | EndData
    | EndBody

  /** The locals of `parse` and its two result maps; `rest` is the body from `i` on. */
  datatype Machine = Machine(
    state: State, rest: string,
    name: string, fileName: string, fileType: string, data: string, fileMark: bool,
    form: map<string, string>, files: map<string, seq<Part>>)

  /** `strncmp` of the whole of `p` against the front of `s`; nothing is read past the body. */
  predicate StartsWith(s: string, p: string) { p <= s }

  /** `strncasecmp` likewise. */
  predicate StartsWithAnyCase(s: string, p: string) {
    |p| <= |s| && forall k :: 0 <= k < |p| ==> ToLower(s[k]) == ToLower(p[k])
  }

  lemma AnyCaseExactly(s: string, p: string)
    ensures StartsWithAnyCase(s, p) <==> |p| <= |s| && SameName(s[..|p|], p)
  {
    if |p| <= |s| {
      forall k | 0 <= k < |p|
        ensures ToLower(s[k]) == ToLower(p[k]) <==> SameLetter(s[..|p|][k], p[k])
      {
        SameLetterExactly(s[k], p[k]);
      }
    }
  }

  datatype Disposition = Disposition(rest: string, name: string, fileName: string, found: bool)

  /** The inner loop over a Content-Disposition line: quoted texts are the name, then the file name. */
  function ScanDisposition(r: string, name: string, fileName: string, started: bool, isName: bool): (d: Disposition)
    ensures |d.rest| <= |r| && (d.found || d.rest == [])
    decreases |r|
  {
    if r == [] then Disposition([], name, fileName, false)
    else if StartsWith(r, CRLF) then Disposition(r[2..], name, fileName, true)
    else if StartsWith(r, "=\"") then ScanDisposition(r[2..], name, fileName, true, isName)
    else if r[0] == '\"' then ScanDisposition(r[1..], name, fileName, false, !isName)
    else if started && isName then ScanDisposition(r[1..], name + [r[0]], fileName, started, isName)
    else if started then ScanDisposition(r[1..], name, fileName + [r[0]], started, isName)
    else ScanDisposition(r[1..], name, fileName, started, isName)
  }

  /** How much text comes before the first CRLF, or all of it. */
  function LineLength(r: string): (n: nat)
    ensures n <= |r| && (n < |r| ==> n + 2 <= |r| && StartsWith(r[n..], CRLF))
  {
    if r == [] || StartsWith(r, CRLF) then 0 else 1 + LineLength(r[1..])
  }

  /** The delimiter ahead of the next part, with something behind its two dashes. */
  predicate AtDelimiter(r: string, bd: string) {
    |r| > 4 && StartsWith(r, CRLF + "--" + bd)
  }

  /** With a boundary the delimiter may end the text; without one something must follow its dashes. */
  lemma DelimiterExactly(r: string, bd: string)
    ensures AtDelimiter(r, bd) <==> exists tail :: r == "\r\n--" + bd + tail && (bd != "" || tail != "")
  {
    var p := "\r\n--" + bd;
    assert CRLF + "--" == "\r\n--";
    if AtDelimiter(r, bd) {
      assert r == p + r[|p|..];
    }
    forall tail | r == p + tail && (bd != "" || tail != "")
      ensures AtDelimiter(r, bd)
    {
      assert |r| == 4 + |bd| + |tail|;
    }
  }

  /** How much data comes before the first delimiter, or all of it. */
  function DataLength(r: string, bd: string): (n: nat)
    ensures n <= |r| && (n < |r| ==> AtDelimiter(r[n..], bd))
  {
    if r == [] || AtDelimiter(r, bd) then 0 else 1 + DataLength(r[1..], bd)
  }

  /** A file under a name that is taken goes into a copy, and is lost. */
  function AddFile(files: map<string, seq<Part>>, part: Part): map<string, seq<Part>> {
    if part.name in files then files else files[part.name := [part]]
  }

  /** One turn of the outer loop. It may leave the machine as it is, and then it will do so forever. */
  function Step(m: Machine, bd: string): (t: Machine)
    requires m.rest != []
    ensures |t.rest| < |m.rest| || (t.rest == m.rest && m.state.EndData? && t.state.StartBody?) || t == m
  {
    var r := m.rest;
    match m.state
    case StartBody =>
      if StartsWith(r, "--") then m.(state := StartBoundary, rest := r[2..]) else m
    case StartBoundary =>
      if !StartsWith(r, bd) then m
      else
        var s := r[|bd|..];
        if StartsWith(s, CRLF) then m.(state := EndBoundary, rest := s[2..])
        else if StartsWith(s, "--") then m.(state := EndBody, rest := s[2..])
        else m.(rest := s)
    case EndBoundary =>
      if StartsWithAnyCase(r, "Content-Disposition") then m.(state := StartDisposition, rest := r[19..]) else m
    case StartDisposition =>
      var d := ScanDisposition(Drop(r, 13), m.name, m.fileName, false, true);
      m.(state := if d.found then EndDisposition else m.state, rest := d.rest, name := d.name, fileName := d.fileName)
    case EndDisposition =>
      if StartsWith(r, CRLF) then m.(state := StartData, rest := r[2..], fileMark := false)
      else if StartsWithAnyCase(r, "Content-Type") then
        m.(state := StartType, rest := Drop(r, 14), fileMark := true)
      else m
    case StartType =>
      var n := LineLength(r);
      if n < |r| then m.(state := EndType, rest := r[n + 2..], fileType := m.fileType + r[..n])
      else m.(rest := [], fileType := m.fileType + r)
    case EndType =>
      if StartsWith(r, CRLF) then m.(state := StartData, rest := r[2..]) else m
    case StartData =>
      var n := DataLength(r, bd);
      if n < |r| then m.(state := EndData, rest := r[n + 2..], data := r[..n])
      else m.(rest := [])
    case EndData =>
      var part := Part(m.name, m.fileName, m.fileType, m.data);
      Machine(StartBody, r, "", "", "", "", false,
              if m.fileMark then m.form else m.form[m.name := m.data],
              if m.fileMark then AddFile(m.files, part) else m.files)
    case EndBody => m.(rest := Drop(r, 2))
  }

  datatype Maps = Maps(form: map<string, string>, files: map<string, seq<Part>>)

  /** The loop to its end; None when it never gets there. */
  function Run(m: Machine, bd: string): Option<Maps>
    decreases |m.rest|, if m.state.EndData? then 1 else 0
  {
    if m.rest == [] then Some(Maps(m.form, m.files))
    else if Step(m, bd) == m then None
    else Run(Step(m, bd), bd)
  }

  /** The machine after `n` turns of the outer loop, or where the loop ended before. */
  function Turns(m: Machine, bd: string, n: nat): Machine
    decreases n
  {
    if n == 0 || m.rest == [] then m else Turns(Step(m, bd), bd, n - 1)
  }

  /** `Run` is None exactly when the loop never ends. */
  lemma LoopEndsExactly(m: Machine, bd: string)
    ensures Run(m, bd) == None <==> forall n: nat :: Turns(m, bd, n).rest != []
  {
    if Run(m, bd) == None {
      forall n: nat
        ensures Turns(m, bd, n).rest != []
      {
        StuckNeverEnds(m, bd, n);
      }
    } else {
      var n := TurnsToEnd(m, bd);
    }
  }

  lemma {:induction false} StuckNeverEnds(m: Machine, bd: string, n: nat)
    requires Run(m, bd) == None
    ensures Turns(m, bd, n).rest != []
    decreases n
  {
    if n > 0 {
      StuckNeverEnds(Step(m, bd), bd, n - 1);
    }
  }

  lemma {:induction false} TurnsToEnd(m: Machine, bd: string) returns (n: nat)
    requires Run(m, bd).Some?
    ensures Turns(m, bd, n).rest == []
    decreases |m.rest|, if m.state.EndData? then 1 else 0
  {
    if m.rest == [] {
      n := 0;
    } else {
      n := TurnsToEnd(Step(m, bd), bd);
      n := n + 1;
    }
  }

  function Start(body: string, maps: Maps): Machine {
    Machine(StartBody, body, "", "", "", "", false, maps.form, maps.files)
  }

  // The bodies on which the loop ends. They may stop anywhere.

  /** What is left behind the first line of `r`. */
  function BehindLine(r: string): (s: string)
    ensures |s| <= |r|
  {
    var n := LineLength(r);
    if n < |r| then r[n + 2..] else []
  }

  /** Two dashes in front of a boundary, or nothing. */
  predicate BodyReads(r: string, bd: string)
    decreases |r|, 1
  {
    r == "" || (StartsWith(r, "--") && BoundaryReads(r[2..], bd))
  }

  /** The boundary, once or more, in front of a line end and a part, or of two more dashes and anything. */
  predicate BoundaryReads(r: string, bd: string)
    decreases |r|, 0
  {
    || r == ""
    || (StartsWith(r, bd) &&
          var s := r[|bd|..];
          if StartsWith(s, CRLF) then DispositionReads(s[2..], bd)
          else StartsWith(s, "--") || (bd != "" && BoundaryReads(s, bd)))
  }

  /** A Content-Disposition line. */
  predicate DispositionReads(r: string, bd: string)
    decreases |r|, 0
  {
    || r == ""
    || (StartsWithAnyCase(r, "Content-Disposition") && TypeReads(BehindLine(Drop(r[19..], 13)), bd))
  }

  /** A blank line, or a Content-Type line and a blank line. */
  predicate TypeReads(r: string, bd: string)
    decreases |r|, 0
  {
    || r == ""
    || (StartsWith(r, CRLF) && DataReads(r[2..], bd))
    || (StartsWithAnyCase(r, "Content-Type") && BlankReads(BehindLine(Drop(r, 14)), bd))
  }

  predicate BlankReads(r: string, bd: string)
    decreases |r|, 0
  {
    r == "" || (StartsWith(r, CRLF) && DataReads(r[2..], bd))
  }

  /** Anything; what comes behind the first delimiter is again a body. */
  predicate DataReads(r: string, bd: string)
    decreases |r|, 0
  {
    var n := DataLength(r, bd);
    n == |r| || BodyReads(r[n + 2..], bd)
  }

  /** The text left, by the state that reads it. */
  predicate Reads(m: Machine, bd: string) {
    match m.state
    case StartBody => BodyReads(m.rest, bd)
    case StartBoundary => BoundaryReads(m.rest, bd)
    case EndBoundary => DispositionReads(m.rest, bd)
    case StartDisposition => TypeReads(BehindLine(Drop(m.rest, 13)), bd)
    case EndDisposition => TypeReads(m.rest, bd)
    case StartType => BlankReads(BehindLine(m.rest), bd)
    case EndType => BlankReads(m.rest, bd)
    case StartData => DataReads(m.rest, bd)
    case EndData => BodyReads(m.rest, bd)
    case EndBody => true
  }

  lemma BehindLineTurn(r: string)
    requires r != [] && !StartsWith(r, CRLF)
    ensures BehindLine(r) == BehindLine(r[1..]) && (LineLength(r) < |r| <==> LineLength(r[1..]) < |r[1..]|)
  {
    var n := LineLength(r[1..]);
    assert n < |r[1..]| ==> r[1..][n + 2..] == r[n + 3..];
  }

  lemma BehindQuote(r: string)
    requires StartsWith(r, "=\"")
    ensures !StartsWith(r, CRLF) && !StartsWith(r[1..], CRLF) && r[1..] != [] && r[1..][1..] == r[2..]
  {
    assert r[1..][0] == '\"';
  }

  /** Whatever is quoted on the line, the scan ends behind it. */
  lemma {:induction false} ScanTakesLine(r: string, name: string, fileName: string, started: bool, isName: bool)
    ensures var d := ScanDisposition(r, name, fileName, started, isName);
            (d.found <==> LineLength(r) < |r|) && d.rest == BehindLine(r)
    decreases |r|
  {
    if r != [] && !StartsWith(r, CRLF) {
      BehindLineTurn(r);
      hide LineLength;
      hide BehindLine;
      if StartsWith(r, "=\"") {
        BehindQuote(r);
        BehindLineTurn(r[1..]);
        ScanTakesLine(r[2..], name, fileName, true, isName);
      } else if r[0] == '\"' {
        ScanTakesLine(r[1..], name, fileName, false, !isName);
      } else if started && isName {
        ScanTakesLine(r[1..], name + [r[0]], fileName, started, isName);
      } else if started {
        ScanTakesLine(r[1..], name, fileName + [r[0]], started, isName);
      } else {
        ScanTakesLine(r[1..], name, fileName, started, isName);
      }
    }
  }

  /** One turn on such a text leaves such a text; on any other the loop is stuck, or will be. */
  predicate TurnReads(m: Machine, bd: string)
    requires m.rest != []
  {
    var t := Step(m, bd);
    if t == m then !Reads(m, bd) else Reads(t, bd) <==> Reads(m, bd)
  }

  lemma BoundaryTurn(m: Machine, bd: string)
    requires m.rest != [] && (m.state.StartBody? || m.state.StartBoundary?)
    ensures TurnReads(m, bd)
  {
    hide DispositionReads;
  }

  lemma DispositionReadsTurn(m: Machine, bd: string)
    requires m.rest != [] && (m.state.EndBoundary? || m.state.StartDisposition?)
    ensures TurnReads(m, bd)
  {
    hide TypeReads;
    hide ScanDisposition;
    hide LineLength;
    hide StartsWithAnyCase;
    if m.state.StartDisposition? {
      ScanTakesLine(Drop(m.rest, 13), m.name, m.fileName, false, true);
    }
  }

  lemma TypeTurn(m: Machine, bd: string)
    requires m.rest != [] && (m.state.EndDisposition? || m.state.StartType? || m.state.EndType?)
    ensures TurnReads(m, bd)
  {
    hide DataReads;
    hide LineLength;
    NotBoth(m.rest);
    hide StartsWithAnyCase;
  }

  lemma NotBoth(r: string)
    ensures !(StartsWith(r, CRLF) && StartsWithAnyCase(r, "Content-Type"))
  {
    assert CRLF[0] == '\r' && "Content-Type"[0] == 'C';
  }

  lemma DataTurns(m: Machine, bd: string)
    requires m.rest != [] && (m.state.StartData? || m.state.EndData? || m.state.EndBody?)
    ensures TurnReads(m, bd)
  {
    hide DataLength;
    hide AddFile;
  }

  lemma ReadsTurn(m: Machine, bd: string)
    requires m.rest != []
    ensures TurnReads(m, bd)
  {
    hide TurnReads;
    if m.state.StartBody? || m.state.StartBoundary? {
      BoundaryTurn(m, bd);
    } else if m.state.EndBoundary? || m.state.StartDisposition? {
      DispositionReadsTurn(m, bd);
    } else if m.state.EndDisposition? || m.state.StartType? || m.state.EndType? {
      TypeTurn(m, bd);
    } else {
      DataTurns(m, bd);
    }
  }

  lemma {:induction false} ReadsExactly(m: Machine, bd: string)
    ensures Run(m, bd).Some? <==> Reads(m, bd)
    decreases |m.rest|, if m.state.EndData? then 1 else 0
  {
    if m.rest != [] {
      ReadsTurn(m, bd);
      hide Step;
      hide Reads;
      if Step(m, bd) != m {
        ReadsExactly(Step(m, bd), bd);
      }
    }
  }

  /** The outer loop ends on exactly these bodies, whatever the maps hold. */
  lemma BodyReadsExactly(body: string, maps: Maps, bd: string)
    ensures BodyReads(body, bd) <==> Run(Start(body, maps), bd).Some?
    ensures BodyReads(body, bd) <==> exists n: nat :: Turns(Start(body, maps), bd, n).rest == []
  {
    ReadsExactly(Start(body, maps), bd);
    LoopEndsExactly(Start(body, maps), bd);
  }

  // ---- the loops ----

  /** `i + |p| <= len` and the body reads `p` from `i` on. */
  predicate At(body: string, i: nat, p: string) {
    i + |p| <= |body| && body[i..i + |p|] == p
  }

  lemma AtIs(body: string, i: nat, p: string)
    ensures At(body, i, p) && p != [] ==> StartsWith(Drop(body, i), p)
    ensures p != [] && StartsWith(Drop(body, i), p) ==> At(body, i, p)
    ensures i <= |body| ==> (At(body, i, p) <==> StartsWith(body[i..], p))
  {
    if i <= |body| && |p| <= |body| - i {
      assert body[i..][..|p|] == body[i..i + |p|];
    }
  }

  lemma AtFits(body: string, i: nat, p: string)
    ensures At(body, i, p) ==> i + |p| <= |body|
  {
  }

  lemma DispositionTurn(body: string, i: nat, name: string, fileName: string, started: bool, isName: bool)
    requires i < |body|
    ensures ScanDisposition(body[i..], name, fileName, started, isName) ==
            if At(body, i, CRLF) then Disposition(body[i + 2..], name, fileName, true)
            else if At(body, i, "=\"") then ScanDisposition(body[i + 2..], name, fileName, true, isName)
            else if body[i] == '\"' then ScanDisposition(body[i + 1..], name, fileName, false, !isName)
            else if started && isName then
              ScanDisposition(body[i + 1..], name + [body[i]], fileName, started, isName)
            else if started then
              ScanDisposition(body[i + 1..], name, fileName + [body[i]], started, isName)
            else ScanDisposition(body[i + 1..], name, fileName, started, isName)
  {
    AtIs(body, i, CRLF);
    AtIs(body, i, "=\"");
    assert body[i..][1..] == body[i + 1..];
    assert i + 2 <= |body| ==> body[i..][2..] == body[i + 2..];
  }

  lemma LineTurn(body: string, i: nat)
    requires i < |body|
    ensures LineLength(body[i..]) == if At(body, i, CRLF) then 0 else 1 + LineLength(body[i + 1..])
    ensures At(body, i, CRLF) ==> i + 2 <= |body|
  {
    AtIs(body, i, CRLF);
    assert body[i..][1..] == body[i + 1..];
  }

  lemma DataTurn(body: string, i: nat, bd: string)
    requires i < |body|
    ensures DataLength(body[i..], bd) ==
            if i + 4 < |body| && At(body, i, CRLF + "--" + bd) then 0 else 1 + DataLength(body[i + 1..], bd)
  {
    AtIs(body, i, CRLF + "--" + bd);
    assert body[i..][1..] == body[i + 1..];
  }

  /** The inner loop over a Content-Disposition line. */
  method ReadDisposition(body: string, i0: nat, name0: string, fileName0: string)
    returns (i: nat, name: string, fileName: string, found: bool)
    ensures i0 <= i
    ensures ScanDisposition(Drop(body, i0), name0, fileName0, false, true)
         == Disposition(Drop(body, i), name, fileName, found)
  {
    i, name, fileName, found := i0, name0, fileName0, false;
    var started, isName := false, true;
    while i < |body|
      invariant i0 <= i
      invariant ScanDisposition(Drop(body, i0), name0, fileName0, false, true)
             == ScanDisposition(Drop(body, i), name, fileName, started, isName)
      decreases |body| - i
    {
      hide ScanDisposition;
      DispositionTurn(body, i, name, fileName, started, isName);
      if At(body, i, CRLF) {
        i := i + 2;
        found := true;
        return;
      }
      if At(body, i, "=\"") {
        i := i + 2;
        started := true;
      } else if body[i] == '\"' {
        started := false;
        isName := !isName;
        i := i + 1;
      } else if started {
        if isName {
          name := name + [body[i]];
        } else {
          fileName := fileName + [body[i]];
        }
        i := i + 1;
      } else {
        i := i + 1;
      }
    }
  }

  lemma Grow(body: string, i0: nat, i: nat, front: string)
    requires i0 <= i < |body|
    ensures front + body[i0..i] + [body[i]] == front + body[i0..i + 1]
  {
    assert body[i0..i] + [body[i]] == body[i0..i + 1];
  }

  /** The inner loop over a Content-Type line. */
  method ReadType(body: string, i0: nat, type0: string) returns (i: nat, fileType: string, found: bool)
    requires i0 < |body|
    ensures i0 < i
    ensures var n := LineLength(body[i0..]);
            if i0 + n < |body| then found && i == i0 + n + 2 && fileType == type0 + body[i0..i0 + n]
            else !found && i == |body| && fileType == type0 + body[i0..]
  {
    hide LineLength;
    hide StartsWith;
    hide At;
    i, fileType, found := i0, type0, false;
    ghost var n := LineLength(body[i0..]);
    while i < |body|
      invariant i0 <= i <= |body|
      invariant n == i - i0 + LineLength(body[i..])
      invariant fileType == type0 + body[i0..i]
    {
      LineTurn(body, i);
      if At(body, i, CRLF) {
        i := i + 2;
        found := true;
        return;
      }
      Grow(body, i0, i, type0);
      fileType := fileType + [body[i]];
      i := i + 1;
    }
  }

  /** The data loop copies through a buffer of 4096 characters. */
  method ReadData(body: string, i0: nat, bd: string) returns (i: nat, data: string, found: bool)
    requires i0 < |body|
    ensures i0 < i
    ensures var n := DataLength(body[i0..], bd);
            if i0 + n < |body| then found && i == i0 + n + 2 && data == body[i0..i0 + n]
            else !found && i == |body|
  {
    hide DataLength;
    hide AtDelimiter;
    hide StartsWith;
    hide At;
    var bufSize := 4096;
    var buffer := new char[bufSize];
    var k := 0;
    i, data, found := i0, "", false;
    ghost var n := DataLength(body[i0..], bd);
    while i < |body|
      invariant i0 <= i <= |body| && 0 <= k < bufSize == buffer.Length
      invariant n == i - i0 + DataLength(body[i..], bd)
      invariant data + buffer[..k] == body[i0..i]
    {
      DataTurn(body, i, bd);
      if i + 4 < |body| && At(body, i, CRLF + "--" + bd) {
        if k != 0 {
          data := data + buffer[..k];
        }
        data := data[..i - i0];
        i := i + 2;
        found := true;
        return;
      }
      ghost var copied := buffer[..k];
      assert body[i0..i] + [body[i]] == body[i0..i + 1];
      buffer[k] := body[i];
      k := k + 1;
      assert buffer[..k] == copied + [body[i]];
      assert data + (copied + [body[i]]) == data + copied + [body[i]];
      i := i + 1;
      if k >= bufSize {
        data := data + buffer[..bufSize];
        k := 0;
      }
    }
  }

  /** `strncasecmp(body.data() + i, p, |p|) == 0`. */
  predicate AtAnyCase(body: string, i: nat, p: string)
    requires i <= |body|
  {
    StartsWithAnyCase(body[i..], p)
  }

  // `Step`, with the text tests made on indices into the body.

  lemma StepAt(m: Machine, body: string, i: nat, bd: string)
    requires i < |body| && m.rest == Drop(body, i)
    ensures m.state.StartBody? ==>
              Step(m, bd) == if At(body, i, "--") then m.(state := StartBoundary, rest := Drop(body, i + 2)) else m
    ensures m.state.EndBoundary? ==>
              Step(m, bd) == if AtAnyCase(body, i, "Content-Disposition")
                             then m.(state := StartDisposition, rest := Drop(body, i + 19)) else m
    ensures m.state.EndDisposition? ==>
              Step(m, bd) == if At(body, i, CRLF)
                             then m.(state := StartData, rest := Drop(body, i + 2), fileMark := false)
                             else if AtAnyCase(body, i, "Content-Type")
                             then m.(state := StartType, rest := Drop(body, i + 14), fileMark := true) else m
    ensures m.state.EndType? ==>
              Step(m, bd) == if At(body, i, CRLF) then m.(state := StartData, rest := Drop(body, i + 2)) else m
    ensures m.state.EndBody? ==> Step(m, bd) == m.(rest := Drop(body, i + 2))
  {
    AtIs(body, i, "--");
    AtIs(body, i, CRLF);
  }

  lemma StepBoundaryAt(m: Machine, body: string, i: nat, bd: string)
    requires i < |body| && m.rest == Drop(body, i) && m.state.StartBoundary?
    ensures Step(m, bd) ==
            if !At(body, i, bd) then m
            else if At(body, i + |bd|, CRLF) then m.(state := EndBoundary, rest := Drop(body, i + |bd| + 2))
            else if At(body, i + |bd|, "--") then m.(state := EndBody, rest := Drop(body, i + |bd| + 2))
            else m.(rest := Drop(body, i + |bd|))
  {
    hide StartsWith;
    hide At;
    AtIs(body, i, bd);
    AtFits(body, i, bd);
    if At(body, i, bd) {
      AtIs(body, i + |bd|, CRLF);
      AtIs(body, i + |bd|, "--");
      assert m.rest[|bd|..] == body[i + |bd|..];
    }
  }

  lemma StepDispositionAt(m: Machine, body: string, i: nat, bd: string)
    requires i < |body| && m.rest == Drop(body, i) && m.state.StartDisposition?
    ensures var d := ScanDisposition(Drop(body, i + 13), m.name, m.fileName, false, true);
            Step(m, bd) == m.(state := if d.found then EndDisposition else m.state, rest := d.rest,
                              name := d.name, fileName := d.fileName)
  {
    hide ScanDisposition;
    assert Drop(m.rest, 13) == Drop(body, i + 13);
  }

  lemma StepTypeAt(m: Machine, body: string, i: nat, bd: string)
    requires i < |body| && m.rest == Drop(body, i) && m.state.StartType?
    ensures var n := LineLength(body[i..]);
            Step(m, bd) == if i + n < |body| then m.(state := EndType, rest := Drop(body, i + n + 2),
                                                     fileType := m.fileType + body[i..i + n])
                           else m.(rest := [], fileType := m.fileType + body[i..])
  {
    hide LineLength;
    var n := LineLength(body[i..]);
    if i + n < |body| {
      assert m.rest[..n] == body[i..i + n];
      assert m.rest[n + 2..] == Drop(body, i + n + 2);
    }
  }

  lemma StepStartDataAt(m: Machine, body: string, i: nat, bd: string)
    requires i < |body| && m.rest == Drop(body, i) && m.state.StartData?
    ensures var n := DataLength(body[i..], bd);
            Step(m, bd) == if i + n < |body| then m.(state := EndData, rest := Drop(body, i + n + 2),
                                                     data := body[i..i + n])
                           else m.(rest := [])
  {
    hide DataLength;
    var n := DataLength(body[i..], bd);
    if i + n < |body| {
      assert m.rest[..n] == body[i..i + n];
      assert m.rest[n + 2..] == Drop(body, i + n + 2);
    }
  }

  lemma StepDataAt(m: Machine, bd: string)
    requires m.rest != [] && m.state.EndData?
    ensures Step(m, bd) ==
            Machine(StartBody, m.rest, "", "", "", "", false,
                    if m.fileMark then m.form else m.form[m.name := m.data],
                    if m.fileMark then AddFile(m.files, Part(m.name, m.fileName, m.fileType, m.data)) else m.files)
  {
  }

  lemma RunEnds(m: Machine, bd: string)
    requires m.rest == []
    ensures Run(m, bd) == Some(Maps(m.form, m.files))
  {
  }

  lemma RunStep(m: Machine, bd: string)
    requires m.rest != [] && Run(m, bd).Some?
    ensures Step(m, bd) != m && Run(m, bd) == Run(Step(m, bd), bd)
  {
  }

  class HttpMultiPart {
    const bd: string
    var form: map<string, string>
    var files: map<string, seq<Part>>

    constructor (boundary: string)
      ensures bd == boundary && form == map[] && files == map[]
    {
      bd, form, files := boundary, map[], map[];
    }

    ghost function View(): Maps
      reads this
    {
      Maps(form, files)
    }

    /** The `end_content_data` state: the last data of a field wins, the first file of a name stays. */
    method Store(name: string, fileName: string, fileType: string, data: string, fileMark: bool)
      modifies this
      ensures form == if fileMark then old(form) else old(form)[name := data]
      ensures files == if fileMark then AddFile(old(files), Part(name, fileName, fileType, data)) else old(files)
    {
      if !fileMark {
        form := form[name := data];
      } else {
        if name in files {
          // `get` returns a copy of the vector; what is appended to it is lost.
          var copy := files[name];
          copy := copy + [Part(name, fileName, fileType, data)];
        } else {
          files := files[name := [Part(name, fileName, fileType, data)]];
        }
      }
    }

    /** The states that only look at the text and move on. */
    method TextTurn(body: string, i0: nat, state0: State, mark0: bool, ghost m: Machine)
      returns (state: State, i: nat, fileMark: bool)
      requires i0 < |body| && m.state == state0 && m.rest == Drop(body, i0) && m.fileMark == mark0
      requires state0.StartBody? || state0.StartBoundary? || state0.EndBoundary?
               || state0.EndDisposition? || state0.EndType? || state0.EndBody?
      ensures Step(m, bd) == m.(state := state, rest := Drop(body, i), fileMark := fileMark)
    {
      hide Step;
      hide At;
      hide AtAnyCase;
      state, i, fileMark := state0, i0, mark0;
      StepAt(m, body, i, bd);
      match state {
        case StartBody =>
          if At(body, i, "--") {
            i := i + 2;
            state := StartBoundary;
          }
        case StartBoundary =>
          StepBoundaryAt(m, body, i, bd);
          if At(body, i, bd) {
            i := i + |bd|;
            if At(body, i, CRLF) {
              i := i + 2;
              state := EndBoundary;
            } else if At(body, i, "--") {
              i := i + 2;
              state := EndBody;
            }
          }
        case EndBoundary =>
          if AtAnyCase(body, i, "Content-Disposition") {
            state := StartDisposition;
            i := i + 19;
          }
        case EndDisposition =>
          if At(body, i, CRLF) {
            i := i + 2;
            fileMark := false;
            state := StartData;
          } else if AtAnyCase(body, i, "Content-Type") {
            i := i + 14;
            fileMark := true;
            state := StartType;
          }
        case EndType =>
          if At(body, i, CRLF) {
            i := i + 2;
            state := StartData;
          }
        case EndBody =>
          i := i + 2;
        case _ =>
      }
    }

    /**
     `parse`. Some bodies leave the machine where it is and the loop running
     forever; on every other body it ends with the maps of the step function.
     */
    method Parse(body: string)
      requires BodyReads(body, bd)
      modifies this
      ensures Some(View()) == Run(Start(body, old(View())), bd)
    {
      hide ScanDisposition;
      hide Step;
      hide Run;
      hide At;
      hide AtAnyCase;
      hide AddFile;
      hide LineLength;
      hide DataLength;
      hide BodyReads;
      BodyReadsExactly(body, View(), bd);
      var i := 0;
      var name, fileName, fileType, data := "", "", "", "";
      var fileMark := false;
      var state := StartBody;
      ghost var m := Start(body, View());
      while i < |body|
        invariant 0 <= i
        invariant m == Machine(state, Drop(body, i), name, fileName, fileType, data, fileMark, form, files)
        invariant Run(m, bd).Some? && Run(m, bd) == Run(Start(body, old(View())), bd)
        decreases |m.rest|, if m.state.EndData? then 1 else 0
      {
        ghost var before := m;
        RunStep(m, bd);
        match state {
          case StartDisposition =>
            StepDispositionAt(m, body, i, bd);
            var found;
            i, name, fileName, found := ReadDisposition(body, i + 13, name, fileName);
            if found {
              state := EndDisposition;
            }
          case StartType =>
            StepTypeAt(m, body, i, bd);
            var found;
            i, fileType, found := ReadType(body, i, fileType);
            if found {
              state := EndType;
            }
          case StartData =>
            StepStartDataAt(m, body, i, bd);
            var found, copied;
            i, copied, found := ReadData(body, i, bd);
            if found {
              data := copied;
              state := EndData;
            }
          case EndData =>
            StepDataAt(m, bd);
            Store(name, fileName, fileType, data, fileMark);
            name, fileName, fileType, data := "", "", "", "";
            fileMark := false;
            state := StartBody;
          case _ =>
            state, i, fileMark := TextTurn(body, i, state, fileMark, m);
        }
        m := Step(before, bd);
      }
      RunEnds(m, bd);
    }
  }
}
