/**
 The header map: a multimap ordered by lower-cased key, in which only keys that
 begin with "set-cookie" may repeat, with its text form and its parser.
 */
module HttpHeader {
  import opened Common
  import opened Buffer

  datatype Entry = Entry(key: string, value: string)

  function ToLowers(s: string): (r: string)
    ensures |r| == |s| && forall i :: 0 <= i < |s| ==> r[i] == ToLower(s[i])
  {
    seq(|s|, i requires 0 <= i < |s| => ToLower(s[i]))
  }

  /** `std::string::operator<`. */
  predicate Less(a: string, b: string) {
    b != [] && (a == [] || a[0] < b[0] || (a[0] == b[0] && Less(a[1..], b[1..])))
  }

  /** Behind a common front, `a` has ended and `b` has not, or `a` goes on with the lesser byte. */
  ghost predicate Before(a: string, b: string) {
    exists n :: 0 <= n <= |a| && n < |b| && a[..n] == b[..n] && (n == |a| || a[n] as int < b[n] as int)
  }

  lemma {:induction false} LessExactly(a: string, b: string)
    ensures Less(a, b) <==> Before(a, b)
  {
    if a == [] {
      assert b != [] ==> a[..0] == b[..0];
    } else if b != [] {
      if a[0] == b[0] {
        LessExactly(a[1..], b[1..]);
        if Before(a[1..], b[1..]) {
          var n :| 0 <= n <= |a[1..]| && n < |b[1..]| && a[1..][..n] == b[1..][..n]
                   && (n == |a[1..]| || a[1..][n] as int < b[1..][n] as int);
          assert a[..n + 1] == [a[0]] + a[1..][..n] && b[..n + 1] == [b[0]] + b[1..][..n];
        }
        if Before(a, b) {
          var n :| 0 <= n <= |a| && n < |b| && a[..n] == b[..n] && (n == |a| || a[n] as int < b[n] as int);
          assert n > 0;
          assert a[1..][..n - 1] == a[..n][1..] && b[1..][..n - 1] == b[..n][1..];
        }
      } else {
        assert a[..0] == b[..0];
        forall n | 0 < n <= |a| && n < |b|
          ensures a[..n] != b[..n]
        {
          assert a[..n][0] != b[..n][0];
        }
      }
    }
  }

  lemma {:induction false} LessTransitive(a: string, b: string, c: string)
    requires Less(a, b) && Less(b, c)
    ensures Less(a, c)
  {
    if a != [] && a[0] == b[0] && b[0] == c[0] {
      LessTransitive(a[1..], b[1..], c[1..]);
    }
  }

  lemma {:induction false} LessTotal(a: string, b: string)
    ensures Less(a, b) || Less(b, a) || a == b
  {
    if a != [] && b != [] && a[0] == b[0] {
      LessTotal(a[1..], b[1..]);
      assert a == [a[0]] + a[1..] && b == [b[0]] + b[1..];
    }
  }

  lemma {:induction false} LessIrreflexive(a: string)
    ensures !Less(a, a)
  {
    if a != [] {
      LessIrreflexive(a[1..]);
    }
  }

  predicate IsSetCookie(k: string) { "set-cookie" <= k }

  predicate Has(h: seq<Entry>, k: string) { exists i :: 0 <= i < |h| && h[i].key == k }

  /** `multimap::emplace`: behind all entries whose keys are not greater. */
  function Emplace(h: seq<Entry>, e: Entry): seq<Entry> {
    if h == [] || Less(e.key, h[0].key) then [e] + h else [h[0]] + Emplace(h[1..], e)
  }

  /** Sets the value of the first entry with key `k`. */
  function SetFirst(h: seq<Entry>, k: string, v: string): seq<Entry> {
    if h == [] then []
    else if h[0].key == k then [Entry(k, v)] + h[1..]
    else [h[0]] + SetFirst(h[1..], k, v)
  }

  /** `add0`. */
  function Add0(h: seq<Entry>, key: string, value: string): seq<Entry> {
    var k := ToLowers(key);
    if !IsSetCookie(k) && Has(h, k) then SetFirst(h, k, value) else Emplace(h, Entry(k, value))
  }

  // ---- what every map built by add0 is like ----

  ghost predicate Sorted(h: seq<Entry>) {
    forall i, j :: 0 <= i < j < |h| ==> !Less(h[j].key, h[i].key)
  }

  ghost predicate LowerKeys(h: seq<Entry>) {
    forall i :: 0 <= i < |h| ==> ToLowers(h[i].key) == h[i].key
  }

  ghost predicate OnePerKey(h: seq<Entry>) {
    forall i, j :: 0 <= i < j < |h| && h[i].key == h[j].key ==> IsSetCookie(h[i].key)
  }

  ghost predicate WellFormed(h: seq<Entry>) { Sorted(h) && LowerKeys(h) && OnePerKey(h) }

  lemma {:induction false} EmplaceSplits(h: seq<Entry>, e: Entry) returns (k: nat)
    requires Sorted(h)
    ensures k <= |h| && Emplace(h, e) == h[..k] + [e] + h[k..]
    ensures forall i :: 0 <= i < k ==> !Less(e.key, h[i].key)
    ensures forall i :: k <= i < |h| ==> Less(e.key, h[i].key)
  {
    if h == [] || Less(e.key, h[0].key) {
      k := 0;
      forall i | 0 <= i < |h|
        ensures Less(e.key, h[i].key)
      {
        if i > 0 {
          LessTotal(h[0].key, h[i].key);
          if Less(h[0].key, h[i].key) {
            LessTransitive(e.key, h[0].key, h[i].key);
          }
        }
      }
    } else {
      k := EmplaceSplits(h[1..], e);
      assert h[..k + 1] == [h[0]] + h[1..][..k];
      assert h[k + 1..] == h[1..][k..];
      assert forall i :: 0 <= i < k + 1 && i > 0 ==> h[i] == h[1..][i - 1];
      assert forall i :: k + 1 <= i < |h| ==> h[i] == h[1..][i - 1];
      k := k + 1;
    }
  }

  lemma {:induction false} SetFirstKeepsKeys(h: seq<Entry>, k: string, v: string)
    ensures var s := SetFirst(h, k, v); |s| == |h| && forall i :: 0 <= i < |h| ==> s[i].key == h[i].key
  {
    if h != [] && h[0].key != k {
      SetFirstKeepsKeys(h[1..], k, v);
    }
  }

  lemma ToLowersTwice(s: string)
    ensures ToLowers(ToLowers(s)) == ToLowers(s)
  {
  }

  lemma EmplaceKeeps(h: seq<Entry>, e: Entry)
    requires WellFormed(h) && ToLowers(e.key) == e.key && (IsSetCookie(e.key) || !Has(h, e.key))
    ensures WellFormed(Emplace(h, e))
  {
    hide Less;
    hide IsSetCookie;
    var n := EmplaceSplits(h, e);
    var s := Emplace(h, e);
    assert forall i :: 0 <= i < n ==> s[i] == h[i];
    assert s[n] == e;
    assert forall i :: n < i < |s| ==> s[i] == h[i - 1];
    forall i, j | 0 <= i < j < |s|
      ensures !Less(s[j].key, s[i].key)
    {
      if i == n && Less(s[j].key, e.key) {
        LessTransitive(e.key, s[j].key, e.key);
        LessIrreflexive(e.key);
      }
    }
  }

  lemma SetFirstKeeps(h: seq<Entry>, k: string, v: string)
    requires WellFormed(h)
    ensures WellFormed(SetFirst(h, k, v))
  {
    hide Less;
    SetFirstKeepsKeys(h, k, v);
  }

  /** `add0` keeps the map ordered, its keys lower-case, and one entry per key but cookies. */
  lemma Add0Keeps(h: seq<Entry>, key: string, value: string)
    requires WellFormed(h)
    ensures WellFormed(Add0(h, key, value))
  {
    var k := ToLowers(key);
    ToLowersTwice(key);
    if !IsSetCookie(k) && Has(h, k) {
      SetFirstKeeps(h, k, value);
    } else {
      EmplaceKeeps(h, Entry(k, value));
    }
  }

  /** The values under `k`, in order. */
  function Values(h: seq<Entry>, k: string): seq<string> {
    if h == [] then [] else (if h[0].key == k then [h[0].value] else []) + Values(h[1..], k)
  }

  lemma {:induction false} NoValues(h: seq<Entry>, k: string)
    requires forall i :: 0 <= i < |h| ==> h[i].key != k
    ensures Values(h, k) == []
  {
    if h != [] {
      NoValues(h[1..], k);
    }
  }

  lemma {:induction false} EmplaceAppends(h: seq<Entry>, e: Entry, k: string)
    requires Sorted(h)
    ensures Values(Emplace(h, e), k) == Values(h, k) + if k == e.key then [e.value] else []
  {
    hide Less;
    if h != [] {
      if Less(e.key, h[0].key) {
        if k == e.key {
          LessIrreflexive(k);
          NoValues(h, k);
        }
        assert ([e] + h)[1..] == h;
      } else {
        EmplaceAppends(h[1..], e, k);
        assert ([h[0]] + Emplace(h[1..], e))[1..] == Emplace(h[1..], e);
      }
    }
  }

  lemma {:induction false} SetFirstReplaces(h: seq<Entry>, k: string, v: string, q: string)
    requires Has(h, k) && forall i, j :: 0 <= i < j < |h| && h[i].key == k ==> h[j].key != k
    ensures Values(SetFirst(h, k, v), q) == if q == k then [v] else Values(h, q)
  {
    if h[0].key == k {
      assert ([Entry(k, v)] + h[1..])[1..] == h[1..];
      if q == k {
        NoValues(h[1..], k);
      }
    } else {
      var i :| 0 <= i < |h| && h[i].key == k;
      assert h[1..][i - 1].key == k;
      SetFirstReplaces(h[1..], k, v, q);
      assert ([h[0]] + SetFirst(h[1..], k, v))[1..] == SetFirst(h[1..], k, v);
    }
  }

  /**
   What `add0` means: names that begin with "set-cookie" collect their values in
   order, any other name keeps the last one, and no other name is touched.
   */
  lemma Add0Means(h: seq<Entry>, key: string, value: string, k: string)
    requires WellFormed(h)
    ensures Values(Add0(h, key, value), k)
         == if k != ToLowers(key) then Values(h, k)
            else if IsSetCookie(k) then Values(h, k) + [value]
            else [value]
  {
    var l := ToLowers(key);
    if !IsSetCookie(l) && Has(h, l) {
      SetFirstReplaces(h, l, value, k);
    } else {
      EmplaceAppends(h, Entry(l, value), k);
      if !IsSetCookie(l) {
        NoValues(h, l);
      }
    }
  }

  /** An entry whose key is not below any other goes to the end. */
  lemma {:induction false} EmplaceLast(h: seq<Entry>, e: Entry)
    requires forall i :: 0 <= i < |h| ==> !Less(e.key, h[i].key)
    ensures Emplace(h, e) == h + [e]
  {
    if h != [] {
      EmplaceLast(h[1..], e);
      assert h == [h[0]] + h[1..];
    }
  }

  /** Adding the entries of a well-formed map one by one, in order, builds it again. */
  lemma Add0Next(h: seq<Entry>, n: nat)
    requires WellFormed(h) && n < |h|
    ensures Add0(h[..n], h[n].key, h[n].value) == h[..n + 1]
  {
    EmplaceLast(h[..n], h[n]);
    assert h[..n + 1] == h[..n] + [h[n]];
    if Has(h[..n], h[n].key) {
      var i :| 0 <= i < n && h[..n][i].key == h[n].key;
      assert h[i].key == h[n].key;
    }
  }

  // ---- text and parser ----

  function Text(h: seq<Entry>): string {
    if h == [] then "" else h[0].key + ": " + h[0].value + CRLF + Text(h[1..])
  }

  /** `find`: where `p` first occurs, or past the end. */
  function Find(s: string, p: string): (n: nat)
    ensures n <= |s|
    ensures n < |s| ==> n + |p| <= |s| && s[n..n + |p|] == p
  {
    if s == [] then 0
    else if p <= s then assert s[0..|p|] == p; 0
    else
      var n := Find(s[1..], p);
      assert n < |s[1..]| ==> s[1..][n..n + |p|] == s[n + 1..n + 1 + |p|];
      1 + n
  }

  /** The spaces behind the colon. */
  function SpaceRun(s: string): (n: nat)
    ensures n <= |s| && (n < |s| ==> s[n] != ' ')
  {
    if s == [] || s[0] != ' ' then 0 else 1 + SpaceRun(s[1..])
  }

  /**
   `parse` on the text left: the map, and how much text was read. It stops behind
   the empty line, or where there is no further line with a colon.
   */
  function Parse(text: string, h: seq<Entry>): (r: (seq<Entry>, nat))
    ensures r.1 <= |text|
    decreases |text|
  {
    if CRLF <= text then (h, 2)
    else
      var pos := Find(text, CRLF);
      if pos == |text| then (h, 0)
      else
        var line := text[..pos];
        var colon := Find(line, ":");
        if colon == |line| then (h, 0)
        else
          var from := colon + 1 + SpaceRun(line[colon + 1..]);
          var r := Parse(text[pos + 2..], Add0(h, line[..colon], line[from..]));
          (r.0, pos + 2 + r.1)
  }

  /** The line for `key: value` reads as such; a `spaced` value may begin with spaces. */
  predicate Fits(e: Entry, spaced: bool := false) {
    OneLine(e) && (spaced || e.value == "" || e.value[0] != ' ')
  }

  predicate OneLine(e: Entry) {
    && Find(e.key, ":") == |e.key| && Find(e.key, CRLF) == |e.key|
    && Find(e.value, CRLF) == |e.value|
  }

  /** When `w` holds no `p` and none can begin inside `w` and end behind it, `p` is found where `r` begins with it. */
  lemma {:induction false} FindBehind(w: string, p: string, r: string)
    requires p != "" && Find(w, p) == |w| && p[0] !in p[1..] && p <= r
    ensures Find(w + r, p) == |w|
  {
    if w == "" {
      assert w + r == r;
    } else {
      assert (w + r)[1..] == w[1..] + r;
      FindBehind(w[1..], p, r);
    }
  }

  /** No CRLF in two pieces, and none across them: none in the whole. */
  lemma {:induction false} FindInNeither(a: string, b: string)
    requires Find(a, CRLF) == |a| && Find(b, CRLF) == |b| && (a == "" || a[|a| - 1] != '\r' || b == "" || b[0] != '\n')
    ensures Find(a + b, CRLF) == |a + b|
  {
    if a == "" {
      assert a + b == b;
    } else {
      assert (a + b)[1..] == a[1..] + b;
      FindInNeither(a[1..], b);
    }
  }

  /** One turn of the parser, on the line in front. */
  lemma LineTurn(text: string, pos: nat, colon: nat, h: seq<Entry>)
    requires !(CRLF <= text) && Find(text, CRLF) == pos < |text|
    requires Find(text[..pos], ":") == colon < pos
    ensures pos + 2 <= |text|
    ensures var line := text[..pos]; var from := colon + 1 + SpaceRun(line[colon + 1..]);
            var r := Parse(text[pos + 2..], Add0(h, line[..colon], line[from..]));
            Parse(text, h) == (r.0, pos + 2 + r.1)
  {
    hide Add0;
    hide Find;
    hide SpaceRun;
    var line := text[..pos];
    var from := colon + 1 + SpaceRun(line[colon + 1..]);
    var l := Add0(h, line[..colon], line[from..]);
    var r := Parse(text[pos + 2..], l);
  }

  /** Where the parser stops. */
  lemma ParseEnds(text: string, h: seq<Entry>)
    requires CRLF <= text || Find(text, CRLF) == |text|
          || var line := text[..Find(text, CRLF)]; Find(line, ":") == |line|
    ensures Parse(text, h) == (h, if CRLF <= text then 2 else 0)
  {
    hide Add0;
    hide Find;
  }

  lemma ColonSpace()
    ensures Find(": ", CRLF) == 2
  {
    var s := ": ";
    assert CRLF[0] != s[0] && CRLF[0] != s[1];
    assert s[1..][0] == s[1] && s[1..][1..] == "";
    assert Find(s[1..], CRLF) == 1;
  }

  /** The line of an entry holds no CRLF, and its first colon ends the key. */
  lemma LineHolds(e: Entry)
    requires OneLine(e)
    ensures var line := e.key + ": " + e.value;
            Find(line, CRLF) == |line| && Find(line, ":") == |e.key|
  {
    ColonSpace();
    hide Find;
    FindInNeither(": ", e.value);
    FindInNeither(e.key, ": " + e.value);
    FindBehind(e.key, ":", ": " + e.value);
    assert e.key + (": " + e.value) == e.key + ": " + e.value;
  }

  lemma LineSplits(line: string, rest: string)
    ensures var text := line + CRLF + rest;
            && text == line + (CRLF + rest)
            && text[..|line|] == line && text[|line| + 2..] == rest
  {
  }

  /** A line without CRLF ends where its CRLF begins. */
  lemma LineEnds(line: string, rest: string)
    requires line != "" && Find(line, CRLF) == |line|
    ensures var text := line + CRLF + rest;
            && !(CRLF <= text) && Find(text, CRLF) == |line|
            && text[..|line|] == line && text[|line| + 2..] == rest
  {
    assert !(CRLF <= line);
    FindBehind(line, CRLF, CRLF + rest);
    hide Find;
    LineSplits(line, rest);
    var text := line + CRLF + rest;
    assert text[1] == if |line| == 1 then '\r' else line[1];
  }

  lemma TextTurn(sent: string, h: seq<Entry>, i: nat)
    requires i < |h|
    ensures sent + Text(h[i..]) == sent + (h[i].key + ": " + h[i].value + CRLF) + Text(h[i + 1..])
  {
    assert h[i..][1..] == h[i + 1..];
  }

  lemma TextEnds(h: seq<Entry>, sent: string)
    ensures sent + Text(h[|h|..]) == sent
  {
  }

  /** One stored line is parsed back to its entry. */
  lemma LineReads(e: Entry, rest: string, h: seq<Entry>)
    requires Fits(e)
    ensures var n := |e.key| + |e.value| + 4; var r := Parse(rest, Add0(h, e.key, e.value));
            Parse(e.key + ": " + e.value + CRLF + rest, h) == (r.0, n + r.1)
  {
    hide Add0;
    hide Find;
    hide Parse;
    var line := e.key + ": " + e.value;
    var text := line + CRLF + rest;
    LineHolds(e);
    LineEnds(line, rest);
    LineTurn(text, |line|, |e.key|, h);
    assert line[..|e.key|] == e.key;
    assert line[|e.key| + 1..] == " " + e.value;
    assert (" " + e.value)[1..] == e.value;
    assert SpaceRun(" " + e.value) == 1;
    assert line[|e.key| + 2..] == e.value;
  }

  /** The text of the entries from `n` on is the line of the `n`th and the text of those behind. */
  lemma TextFrom(h: seq<Entry>, n: nat, body: string)
    requires n < |h|
    ensures Text(h[n..]) == h[n].key + ": " + h[n].value + CRLF + Text(h[n + 1..])
    ensures Text(h[n..]) + CRLF + body
         == h[n].key + ": " + h[n].value + CRLF + (Text(h[n + 1..]) + CRLF + body)
  {
    assert h[n..][1..] == h[n + 1..];
  }

  /**
   Every map that `add0` builds comes back from its stored text, entries and order
   alike, and parsing stops exactly where the body begins.
   */
  lemma {:induction false} StoreReadsBack(h: seq<Entry>, n: nat, body: string)
    requires WellFormed(h) && n <= |h| && forall i :: 0 <= i < |h| ==> Fits(h[i])
    ensures Parse(Text(h[n..]) + CRLF + body, h[..n]) == (h, |Text(h[n..])| + 2)
    decreases |h| - n
  {
    hide Add0;
    hide Fits;
    hide WellFormed;
    hide Parse;
    if n == |h| {
      assert Text(h[n..]) + CRLF + body == CRLF + body;
      assert h[..n] == h;
      ParseEnds(CRLF + body, h);
    } else {
      hide Text;
      TextFrom(h, n, body);
      Add0Next(h, n);
      LineReads(h[n], Text(h[n + 1..]) + CRLF + body, h[..n]);
      StoreReadsBack(h, n + 1, body);
    }
  }

  // ---- and nothing else comes back ----

  predicate OccursAt(s: string, p: string, i: nat) { i + |p| <= |s| && s[i..i + |p|] == p }

  ghost predicate Holds(s: string, p: string) { exists i: nat :: OccursAt(s, p, i) }

  lemma {:induction false} FindIsFirst(s: string, p: string, i: nat)
    requires p != "" && i < Find(s, p)
    ensures !OccursAt(s, p, i)
  {
    if i == 0 {
      assert |p| <= |s| ==> s[0..|p|] == s[..|p|];
    } else {
      FindIsFirst(s[1..], p, i - 1);
      assert i + |p| <= |s| ==> s[1..][i - 1..i - 1 + |p|] == s[i..i + |p|];
    }
  }

  lemma FindNone(s: string, p: string)
    requires p != ""
    ensures Find(s, p) == |s| <==> !Holds(s, p)
  {
    hide Find;
    var n := Find(s, p);
    if n < |s| {
      assert OccursAt(s, p, n);
    } else if Holds(s, p) {
      var i: nat :| OccursAt(s, p, i);
      FindIsFirst(s, p, i);
    }
  }

  /** A piece of what lies before the first `p` holds no `p`. */
  lemma PieceHoldsNone(s: string, p: string, i: nat, j: nat)
    requires p != "" && i <= j <= Find(s, p)
    ensures Find(s[i..j], p) == j - i
  {
    hide Find;
    var t := s[i..j];
    FindNone(t, p);
    if Holds(t, p) {
      var k: nat :| OccursAt(t, p, k);
      var u := s[i + k..i + k + |p|];
      assert forall x :: 0 <= x < |p| ==> u[x] == t[k..k + |p|][x];
      assert u == p;
      FindIsFirst(s, p, i + k);
    }
  }

  ghost predicate AllFit(h: seq<Entry>, spaced: bool := false) {
    forall i :: 0 <= i < |h| ==> Fits(h[i], spaced)
  }

  lemma {:induction false} EmplaceFits(h: seq<Entry>, e: Entry, spaced: bool)
    requires AllFit(h, spaced) && Fits(e, spaced)
    ensures AllFit(Emplace(h, e), spaced)
  {
    hide Fits;
    hide Less;
    if h != [] && !Less(e.key, h[0].key) {
      EmplaceFits(h[1..], e, spaced);
    }
  }

  lemma {:induction false} SetFirstFits(h: seq<Entry>, k: string, v: string, spaced: bool)
    requires AllFit(h, spaced) && Fits(Entry(k, v), spaced)
    ensures AllFit(SetFirst(h, k, v), spaced)
  {
    hide Fits;
    if h != [] && h[0].key != k {
      SetFirstFits(h[1..], k, v, spaced);
    }
  }

  /** Lower-casing brings in no colon and no CRLF. */
  lemma LowerFits(key: string, value: string, spaced: bool)
    requires Fits(Entry(key, value), spaced)
    ensures Fits(Entry(ToLowers(key), value), spaced)
  {
    hide Find;
    var k := ToLowers(key);
    LowerHolds(key, ":");
    LowerHolds(key, CRLF);
    FindNone(key, ":");
    FindNone(key, CRLF);
    FindNone(k, ":");
    FindNone(k, CRLF);
  }

  lemma LowerHolds(s: string, p: string)
    requires p == ":" || p == CRLF
    ensures Holds(ToLowers(s), p) ==> Holds(s, p)
  {
    hide ToLowers;
    var l := ToLowers(s);
    if Holds(l, p) {
      var i: nat :| OccursAt(l, p, i);
      forall k | 0 <= k < |p|
        ensures s[i + k] == p[k]
      {
        assert l[i..i + |p|][k] == l[i + k];
      }
      assert s[i..i + |p|] == p;
      assert OccursAt(s, p, i);
    }
  }

  lemma Add0Fits(h: seq<Entry>, key: string, value: string, spaced: bool)
    requires AllFit(h, spaced) && Fits(Entry(key, value), spaced)
    ensures AllFit(Add0(h, key, value), spaced)
  {
    LowerFits(key, value, spaced);
    hide Fits;
    if !IsSetCookie(ToLowers(key)) && Has(h, ToLowers(key)) {
      SetFirstFits(h, ToLowers(key), value, spaced);
    } else {
      EmplaceFits(h, Entry(ToLowers(key), value), spaced);
    }
  }

  /** Whatever a parser reads off a line, up to the colon and from behind it, fits on one. */
  lemma LineFits(text: string, from: nat)
    requires var pos := Find(text, CRLF); Find(text[..pos], ":") < from <= pos
    ensures var line := text[..Find(text, CRLF)];
            OneLine(Entry(line[..Find(line, ":")], line[from..]))
  {
    hide Find;
    var pos := Find(text, CRLF);
    var line := text[..pos];
    var colon := Find(line, ":");
    PieceHoldsNone(line, ":", 0, colon);
    PieceHoldsNone(text, CRLF, 0, colon);
    PieceHoldsNone(text, CRLF, from, pos);
    assert line[..colon] == text[0..colon] == line[0..colon] && line[from..] == text[from..pos];
  }

  lemma {:induction false} ParsedFits(text: string, h: seq<Entry>)
    requires AllFit(h)
    ensures AllFit(Parse(text, h).0)
    decreases |text|
  {
    hide Find;
    hide SpaceRun;
    hide Add0;
    hide AllFit;
    hide Parse;
    var pos := Find(text, CRLF);
    if CRLF <= text || pos == |text| || Find(text[..pos], ":") == pos {
      ParseEnds(text, h);
    } else {
      var line := text[..pos];
      var colon := Find(line, ":");
      var from := colon + 1 + SpaceRun(line[colon + 1..]);
      LineTurn(text, pos, colon, h);
      LineFits(text, from);
      var key, value := line[..colon], line[from..];
      assert Fits(Entry(key, value)) by {
        assert from < pos ==> line[colon + 1..][from - colon - 1] == value[0];
      }
      Add0Fits(h, key, value, false);
      ParsedFits(text[pos + 2..], Add0(h, key, value));
    }
  }

  /**
   A map that `add0` built comes back from its stored text exactly when no key holds a
   colon or a CRLF, no value holds a CRLF and none begins with a space.
   */
  lemma StoreReadsBackExactly(h: seq<Entry>, body: string)
    requires WellFormed(h)
    ensures Parse(Text(h) + CRLF + body, []) == (h, |Text(h)| + 2) <==> AllFit(h)
  {
    hide Parse;
    hide WellFormed;
    ParsedFits(Text(h) + CRLF + body, []);
    if AllFit(h) {
      StoreReadsBack(h, 0, body);
      assert h[0..] == h && h[..0] == [];
    }
  }

  // ---- names, letter by letter ----

  /** Keys are the same exactly when the names differ in the case of letters at most. */
  lemma NamesAgreeExactly(a: string, b: string)
    ensures ToLowers(a) == ToLowers(b) <==> SameName(a, b)
  {
    if |a| == |b| {
      forall i | 0 <= i < |a|
        ensures ToLowers(a)[i] == ToLowers(b)[i] <==> SameLetter(a[i], b[i])
      {
        SameLetterExactly(a[i], b[i]);
      }
      assert SameName(a, b) ==> forall i :: 0 <= i < |a| ==> ToLowers(a)[i] == ToLowers(b)[i];
    }
  }

  predicate IsCookie(name: string) { |name| >= 10 && SameName(name[..10], "Set-Cookie") }

  lemma CookiesAre(name: string)
    ensures IsSetCookie(ToLowers(name)) <==> IsCookie(name)
  {
    if |name| >= 10 {
      var cookie := "set-cookie";
      NamesAgreeExactly(name[..10], "Set-Cookie");
      assert ToLowers(name)[..10] == ToLowers(name[..10]);
      assert ToLowers("Set-Cookie") == cookie;
    }
  }

  function FirstOf(values: seq<string>): Option<string> { if values == [] then None else Some(values[0]) }

  lemma {:induction false} FirstValue(h: seq<Entry>, k: string, i: nat)
    requires i < |h| && h[i].key == k && forall j :: 0 <= j < i ==> h[j].key != k
    ensures FirstOf(Values(h, k)) == Some(h[i].value)
  {
    if i > 0 {
      FirstValue(h[1..], k, i - 1);
    }
  }

  /**
   What is added under one name is found under every name that differs in the case of
   letters at most, and under no other: a cookie behind those before it, anything else alone.
   */
  method AddThenGet(header: HttpHeader, key: string, value: string, name: string)
    returns (before: Option<string>, after: Option<string>)
    requires header.Valid()
    modifies header
    ensures header.Valid()
    ensures after == if !SameName(key, name) then before
                     else if IsCookie(key) && before.Some? then before
                     else Some(value)
  {
    before := header.Get(name);
    NamesAgreeExactly(key, name);
    CookiesAre(key);
    Add0Means(header.headers, key, value, ToLowers(name));
    header.Add(key, value);
    after := header.Get(name);
  }

  /** The header object, over its multimap. */
  class HttpHeader {
    var headers: seq<Entry>

    constructor ()
      ensures headers == [] && Valid()
    {
      headers := [];
    }

    ghost predicate Valid()
      reads this
    {
      WellFormed(headers)
    }

    method Add(key: string, value: string)
      requires Valid()
      modifies this
      ensures Valid() && headers == Add0(old(headers), key, value)
    {
      Add0Keeps(headers, key, value);
      var k := ToLowers(key);
      if !IsSetCookie(k) {
        if exists i :: 0 <= i < |headers| && headers[i].key == k {
          headers := SetFirst(headers, k, value);
          return;
        }
      }
      headers := Emplace(headers, Entry(k, value));
    }

    /** `get`: the value of the first entry. */
    method Get(key: string) returns (v: Option<string>)
      requires Valid()
      ensures v == FirstOf(Values(headers, ToLowers(key)))
      ensures v.None? <==> !Has(headers, ToLowers(key))
      ensures v.Some? ==> exists i :: 0 <= i < |headers| && headers[i] == Entry(ToLowers(key), v.value)
                                      && forall j :: 0 <= j < i ==> headers[j].key != ToLowers(key)
    {
      var k := ToLowers(key);
      for i := 0 to |headers|
        invariant forall j :: 0 <= j < i ==> headers[j].key != k
      {
        if headers[i].key == k {
          FirstValue(headers, k, i);
          return Some(headers[i].value);
        }
      }
      NoValues(headers, k);
      v := None;
    }

    /** `parse`: reads header lines off the front of `header`; the result is where it stopped. */
    method ParseText(header: string) returns (index: nat)
      requires Valid()
      modifies this
      ensures Valid() && (headers, index) == Parse(header, old(headers))
    {
      hide Parse;
      hide Add0;
      hide WellFormed;
      hide Find;
      hide SpaceRun;
      index := 0;
      var text := header;
      while true
        invariant Valid() && index + |text| == |header|
        invariant var r := Parse(text, headers); Parse(header, old(headers)) == (r.0, index + r.1)
        decreases |text|
      {
        if |text| >= 2 && text[0] == '\r' && text[1] == '\n' {
          ParseEnds(text, headers);
          index := index + 2;
          break;
        }
        var pos := Find(text, CRLF);
        if pos == |text| {
          ParseEnds(text, headers);
          break;
        }
        var line := text[..pos];
        var colon := Find(line, ":");
        if colon == |line| {
          ParseEnds(text, headers);
          break;
        }
        LineTurn(text, pos, colon, headers);
        var key := line[..colon];
        var from := SkipSpaces(text, pos, colon);
        Add(key, line[from..]);
        text := text[pos + 2..];
        index := index + pos + 2;
      }
    }

    /** The loop over the spaces: it looks one character past the line, at the CR of its CRLF. */
    method SkipSpaces(text: string, pos: nat, colon: nat) returns (from: nat)
      requires pos + 2 <= |text| && text[pos] == '\r' && colon < pos
      ensures from <= pos && from == colon + 1 + SpaceRun(text[..pos][colon + 1..])
    {
      var p := colon;
      ghost var line := text[..pos];
      while text[p + 1] == ' '
        invariant colon <= p < pos
        invariant SpaceRun(line[colon + 1..]) == p - colon + SpaceRun(line[p + 1..])
        decreases pos - p
      {
        assert line[p + 1..][1..] == line[p + 2..];
        p := p + 1;
      }
      from := p + 1;
    }

    /** `store`: appends the text of every entry to the send buffer. */
    method Store(sender: Buffer<char>)
      requires Valid() && sender.Valid()
      modifies sender, sender.buffer
      ensures sender.Valid() && sender.Contents() == old(sender.Contents()) + Text(headers)
    {
      hide Text;
      hide WellFormed;
      hide Buffer.Contents;
      hide Buffer.Valid;
      ghost var before := sender.Contents();
      ghost var b := sender.buffer;
      assert headers[0..] == headers;
      for i := 0 to |headers|
        invariant sender.Valid() && (sender.buffer == b || fresh(sender.buffer))
        invariant sender.Contents() + Text(headers[i..]) == before + Text(headers)
      {
        ghost var sent := sender.Contents();
        var v := headers[i].key + ": " + headers[i].value + CRLF;
        sender.Append(v);
        TextTurn(sent, headers, i);
      }
      TextEnds(headers, sender.Contents());
    }
  }
}
