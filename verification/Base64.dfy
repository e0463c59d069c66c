/** The base64 codec: bytes to padded text and back, through buffers of a computed size. */
module Base64 {
  import opened Common

  const PAD: Byte := 61

  newtype Sextet = x: int | 0 <= x < 64

  /** `get_alphabet()[k]`: the letters, the digits, '+' and '/'. */
  function Tab(k: Sextet): Byte {
    if k < 26 then 65 + k as Byte
    else if k < 52 then 97 + (k - 26) as Byte
    else if k < 62 then 48 + (k - 52) as Byte
    else if k == 62 then 43
    else 47
  }

  /** `get_inverse()[c]`, where -1 is `None`. */
  function Inverse(c: Byte): Option<Sextet> {
    if 65 <= c <= 90 then Some((c - 65) as Sextet)
    else if 97 <= c <= 122 then Some((c - 97 + 26) as Sextet)
    else if 48 <= c <= 57 then Some((c - 48 + 52) as Sextet)
    else if c == 43 then Some(62)
    else if c == 47 then Some(63)
    else None
  }

  /** The two tables are inverse to each other, and neither knows the padding character. */
  lemma TablesInverse(k: Sextet, c: Byte)
    ensures Inverse(Tab(k)) == Some(k) && Tab(k) != PAD
    ensures Inverse(c).Some? ==> Tab(Inverse(c).value) == c
  {
  }

  /** Table 1 of RFC 4648. */
  lemma AlphabetIs(k: Sextet)
    ensures Tab(k) as int == if k < 26 then 'A' as int + k as int
                             else if k < 52 then 'a' as int + k as int - 26
                             else if k < 62 then '0' as int + k as int - 52
                             else if k == 62 then '+' as int else '/' as int
    ensures PAD as int == '=' as int
  {
  }

  function EncodedSize(n: nat): nat { 4 * ((n + 2) / 3) }

  function DecodedSize(n: nat): nat { n / 4 * 3 }

  // The masks and shifts of the source, as arithmetic on 0..255 and 0..63.

  function First(a: Byte): Sextet { (a / 4) as Sextet }

  function Second(a: Byte, b: Byte): Sextet { (a as int % 4 * 16 + b as int / 16) as Sextet }

  function Third(b: Byte, c: Byte): Sextet { (c as int / 64 + b as int % 16 * 4) as Sextet }

  function Fourth(c: Byte): Sextet { (c % 64) as Sextet }

  function Byte0(p: Sextet, q: Sextet): Byte { (p as int * 4 + q as int / 16) as Byte }

  function Byte1(q: Sextet, r: Sextet): Byte { (q as int % 16 * 16 + r as int / 4) as Byte }

  function Byte2(r: Sextet, t: Sextet): Byte { (r as int % 4 * 64 + t as int) as Byte }

  lemma GroupInverse(a: Byte, b: Byte, c: Byte)
    ensures Byte0(First(a), Second(a, b)) == a
    ensures Byte1(Second(a, b), Third(b, c)) == b
    ensures Byte2(Third(b, c), Fourth(c)) == c
  {
    assert a as int == a as int / 4 * 4 + a as int % 4;
    assert b as int == b as int / 16 * 16 + b as int % 16;
    assert c as int == c as int / 64 * 64 + c as int % 64;
  }

  lemma SextetsInverse(p: Sextet, q: Sextet, r: Sextet, t: Sextet)
    ensures var a, b, c := Byte0(p, q), Byte1(q, r), Byte2(r, t);
            First(a) == p && Second(a, b) == q && Third(b, c) == r && Fourth(c) == t
  {
  }

  function Group(a: Byte, b: Byte, c: Byte): seq<Byte> {
    [Tab(First(a)), Tab(Second(a, b)), Tab(Third(b, c)), Tab(Fourth(c))]
  }

  /** The last group, of one or two bytes. */
  function Padded(x: seq<Byte>): seq<Byte>
    requires |x| < 3
  {
    if |x| == 2 then [Tab(First(x[0])), Tab(Second(x[0], x[1])), Tab(Third(x[1], 0)), PAD]
    else if |x| == 1 then [Tab(First(x[0])), Tab(Second(x[0], 0)), PAD, PAD]
    else []
  }

  function Encode(x: seq<Byte>): (s: seq<Byte>) {
    if |x| < 3 then Padded(x) else Group(x[0], x[1], x[2]) + Encode(x[3..])
  }

  lemma {:induction false} EncodedSizeIs(x: seq<Byte>)
    ensures |Encode(x)| == EncodedSize(|x|)
  {
    if |x| >= 3 {
      EncodedSizeIs(x[3..]);
      assert (|x| + 2) / 3 == (|x[3..]| + 2) / 3 + 1;
    }
  }

  /** The digits in front of the first character that is none. */
  function Sextets(s: seq<Byte>): (v: seq<Sextet>)
    ensures |v| <= |s|
  {
    if s == [] || Inverse(s[0]).None? then [] else [Inverse(s[0]).value] + Sextets(s[1..])
  }

  function Bytes(v: seq<Sextet>): (x: seq<Byte>)
    ensures |x| == |v| / 4 * 3 + if |v| % 4 < 2 then 0 else |v| % 4 - 1
  {
    if |v| >= 4 then [Byte0(v[0], v[1]), Byte1(v[1], v[2]), Byte2(v[2], v[3])] + Bytes(v[4..])
    else if |v| == 3 then [Byte0(v[0], v[1]), Byte1(v[1], v[2])]
    else if |v| == 2 then [Byte0(v[0], v[1])]
    else []
  }

  function Decode(s: seq<Byte>): seq<Byte> { Bytes(Sextets(s)) }

  // ---- the two are inverse ----

  lemma OneSextet(s: seq<Byte>, p: Sextet)
    ensures Sextets([Tab(p)] + s) == [p] + Sextets(s)
  {
    TablesInverse(p, 0);
    hide Tab;
    hide Inverse;
    assert ([Tab(p)] + s)[1..] == s;
  }

  lemma FourSextets(s: seq<Byte>, p: Sextet, q: Sextet, r: Sextet, t: Sextet)
    ensures Sextets([Tab(p), Tab(q), Tab(r), Tab(t)] + s) == [p, q, r, t] + Sextets(s)
  {
    hide Sextets;
    hide Tab;
    OneSextet(s, t);
    OneSextet([Tab(t)] + s, r);
    OneSextet([Tab(r)] + ([Tab(t)] + s), q);
    OneSextet([Tab(q)] + ([Tab(r)] + ([Tab(t)] + s)), p);
    assert [Tab(p), Tab(q), Tab(r), Tab(t)] + s == [Tab(p)] + ([Tab(q)] + ([Tab(r)] + ([Tab(t)] + s)));
    assert [p, q, r, t] + Sextets(s) == [p] + ([q] + ([r] + ([t] + Sextets(s))));
  }

  lemma PaddedSextets(p: Sextet, q: Sextet, r: Sextet)
    ensures Sextets([Tab(p), Tab(q), Tab(r), PAD]) == [p, q, r]
    ensures Sextets([Tab(p), Tab(q), PAD, PAD]) == [p, q]
  {
    assert Sextets([PAD]) == [] && Sextets([PAD, PAD]) == [];
    hide Sextets;
    hide Tab;
    OneSextet([PAD], r);
    OneSextet([Tab(r)] + [PAD], q);
    OneSextet([Tab(q)] + ([Tab(r)] + [PAD]), p);
    assert [Tab(p), Tab(q), Tab(r), PAD] == [Tab(p)] + ([Tab(q)] + ([Tab(r)] + [PAD]));
    OneSextet([PAD, PAD], q);
    OneSextet([Tab(q)] + [PAD, PAD], p);
    assert [Tab(p), Tab(q), PAD, PAD] == [Tab(p)] + ([Tab(q)] + [PAD, PAD]);
  }

  lemma PaddedDecodes(x: seq<Byte>)
    requires |x| < 3
    ensures Decode(Padded(x)) == x
  {
    hide Sextets;
    hide Tab;
    hide First;
    hide Second;
    hide Third;
    hide Byte0;
    hide Byte1;
    if |x| > 0 {
      var b := if |x| == 2 then x[1] else 0;
      GroupInverse(x[0], b, 0);
      PaddedSextets(First(x[0]), Second(x[0], b), Third(b, 0));
    }
  }

  /** Decoding what was encoded gives the bytes back. */
  lemma {:induction false} EncodeDecodes(x: seq<Byte>)
    ensures Decode(Encode(x)) == x
  {
    if |x| < 3 {
      PaddedDecodes(x);
    } else {
      var a, b, c := x[0], x[1], x[2];
      var p, q, r, t := First(a), Second(a, b), Third(b, c), Fourth(c);
      FourSextets(Encode(x[3..]), p, q, r, t);
      GroupInverse(a, b, c);
      EncodeDecodes(x[3..]);
      assert ([p, q, r, t] + Sextets(Encode(x[3..])))[4..] == Sextets(Encode(x[3..]));
      assert x == [a, b, c] + x[3..];
    }
  }

  predicate Digit(c: Byte) { Inverse(c).Some? }

  /** A last group: four digits, or padded with the unused bits of its last digit zero. */
  predicate LastGroup(s: seq<Byte>)
    requires |s| == 4
  {
    && Digit(s[0]) && Digit(s[1])
    && (|| (Digit(s[2]) && Digit(s[3]))
        || (Digit(s[2]) && s[3] == PAD && Inverse(s[2]).value % 4 == 0)
        || (s[2] == PAD && s[3] == PAD && Inverse(s[1]).value % 16 == 0))
  }

  /** Canonical padded text, sections 3.5 and 4 of RFC 4648. */
  predicate Canonical(s: seq<Byte>) {
    || s == []
    || (|s| == 4 && LastGroup(s))
    || (|s| > 4 && Digit(s[0]) && Digit(s[1]) && Digit(s[2]) && Digit(s[3]) && Canonical(s[4..]))
  }

  lemma {:induction false} EncodeCanonical(x: seq<Byte>)
    ensures Canonical(Encode(x))
  {
    hide Inverse;
    hide Tab;
    if |x| < 3 {
      if |x| > 0 {
        var b := if |x| == 2 then x[1] else 0;
        TablesInverse(First(x[0]), 0);
        TablesInverse(Second(x[0], b), 0);
        TablesInverse(Third(b, 0), 0);
      }
    } else {
      TablesInverse(First(x[0]), 0);
      TablesInverse(Second(x[0], x[1]), 0);
      TablesInverse(Third(x[1], x[2]), 0);
      TablesInverse(Fourth(x[2]), 0);
      EncodeCanonical(x[3..]);
      assert Encode(x)[4..] == Encode(x[3..]);
    }
  }

  lemma LastGroupEncodes(s: seq<Byte>)
    requires |s| == 4 && LastGroup(s)
    ensures Encode(Decode(s)) == s
  {
    assert Sextets([]) == [];
    hide Encode;
    hide Bytes;
    hide Sextets;
    hide Tab;
    var p, q := Inverse(s[0]).value, Inverse(s[1]).value;
    TablesInverse(p, s[0]);
    TablesInverse(q, s[1]);
    if Digit(s[2]) {
      var r := Inverse(s[2]).value;
      TablesInverse(r, s[2]);
      PaddedSextets(p, q, r);
      if Digit(s[3]) {
        var t := Inverse(s[3]).value;
        TablesInverse(t, s[3]);
        FourSextets([], p, q, r, t);
        LastBytesEncode(p, q, r, t);
        assert s == [Tab(p), Tab(q), Tab(r), Tab(t)] + [];
        assert [p, q, r, t] + [] == [p, q, r, t];
      } else {
        LastBytesEncode(p, q, r, 0);
        assert s == [Tab(p), Tab(q), Tab(r), PAD];
      }
    } else {
      PaddedSextets(p, q, 0);
      LastBytesEncode(p, q, 0, 0);
      assert s == [Tab(p), Tab(q), PAD, PAD];
    }
  }

  lemma LastBytesEncode(p: Sextet, q: Sextet, r: Sextet, t: Sextet)
    ensures Encode(Bytes([p, q, r, t])) == [Tab(p), Tab(q), Tab(r), Tab(t)]
    ensures r % 4 == 0 ==> Encode(Bytes([p, q, r])) == [Tab(p), Tab(q), Tab(r), PAD]
    ensures q % 16 == 0 ==> Encode(Bytes([p, q])) == [Tab(p), Tab(q), PAD, PAD]
  {
    SextetsInverse(p, q, r, t);
    SextetsInverse(p, q, r, 0);
    SextetsInverse(p, q, 0, 0);
    hide Tab;
    var x := Bytes([p, q, r, t]);
    assert [p, q, r, t][4..] == [] && Bytes([]) == [] && x[3..] == [];
  }

  /** Text comes back from its bytes exactly when it is canonical. */
  lemma {:induction false} DecodeEncodes(s: seq<Byte>)
    ensures Encode(Decode(s)) == s <==> Canonical(s)
  {
    EncodeCanonical(Decode(s));
    if Canonical(s) {
      CanonicalEncodes(s);
    }
  }

  lemma {:induction false} CanonicalEncodes(s: seq<Byte>)
    requires Canonical(s)
    ensures Encode(Decode(s)) == s
  {
    if |s| == 4 && LastGroup(s) {
      LastGroupEncodes(s);
    } else if s != [] {
      var p, q, r, t := Inverse(s[0]).value, Inverse(s[1]).value, Inverse(s[2]).value, Inverse(s[3]).value;
      TablesInverse(p, s[0]);
      TablesInverse(q, s[1]);
      TablesInverse(r, s[2]);
      TablesInverse(t, s[3]);
      SextetsInverse(p, q, r, t);
      FourSextets(s[4..], p, q, r, t);
      assert s == [Tab(p), Tab(q), Tab(r), Tab(t)] + s[4..];
      CanonicalEncodes(s[4..]);
      var v := [p, q, r, t] + Sextets(s[4..]);
      assert v[4..] == Sextets(s[4..]);
      var x := Bytes(v);
      assert x[3..] == Bytes(v[4..]);
    }
  }

  /**
   The text of `n` characters fits the computed size exactly when its digits end in a
   whole group, or in front of the last one.
   */
  lemma DecodedSizeSuffices(s: seq<Byte>)
    ensures var v := |Sextets(s)|;
            |Decode(s)| <= DecodedSize(|s|) <==> v % 4 < 2 || v / 4 < |s| / 4
    ensures |s| % 4 == 0 ==> |Decode(s)| <= DecodedSize(|s|)
  {
    var n, v := |s|, |Sextets(s)|;
    WholeGroups(v, n, v / 4, v % 4, n / 4, n % 4);
  }

  /** `QUI` is two bytes, `AB`, for which no room is made. */
  lemma ThreeDigitsLackRoom()
    ensures Decode([81, 85, 73]) == [65, 66] && DecodedSize(3) == 0
  {
    var s: seq<Byte> := [81, 85, 73];
    assert s[1..] == [85, 73] && s[1..][1..] == [73] && s[1..][1..][1..] == [];
    assert Sextets(s) == [16, 20, 8];
  }

  lemma WholeGroups(v: nat, n: nat, a: nat, r: nat, b: nat, q: nat)
    requires v <= n && v == 4 * a + r && n == 4 * b + q && r < 4 && q < 4
    ensures var size := a * 3 + if r < 2 then 0 else r - 1;
            && (size <= b * 3 <==> r < 2 || a < b)
            && (q == 0 ==> size <= b * 3)
  {
  }

  /** The examples of section 10 of RFC 4648: `f`, `fo`, `foo`, `foob`, `fooba` and `foobar`. */
  lemma Examples()
    ensures Encode([]) == []
    ensures Encode([102]) == [90, 103, 61, 61]
    ensures Encode([102, 111]) == [90, 109, 56, 61]
    ensures Encode([102, 111, 111]) == [90, 109, 57, 118]
    ensures Encode([102, 111, 111, 98]) == [90, 109, 57, 118, 89, 103, 61, 61]
    ensures Encode([102, 111, 111, 98, 97]) == [90, 109, 57, 118, 89, 109, 69, 61]
    ensures Encode([102, 111, 111, 98, 97, 114]) == [90, 109, 57, 118, 89, 109, 70, 121]
  {
    var foo: seq<Byte> := [102, 111, 111];
    assert (foo + [98])[3..] == [98] && foo + [98] == [102, 111, 111, 98];
    assert (foo + [98, 97])[3..] == [98, 97] && foo + [98, 97] == [102, 111, 111, 98, 97];
    assert (foo + [98, 97, 114])[3..] == [98, 97, 114] && foo + [98, 97, 114] == [102, 111, 111, 98, 97, 114];
    assert foo[3..] == [] && [98, 97, 114 as Byte][3..] == [];
  }

  // ---- the loops over buffers ----

  /** `encode`. */
  method EncodeInto(dest: array<Byte>, src: seq<Byte>) returns (written: nat)
    requires dest.Length >= EncodedSize(|src|)
    modifies dest
    ensures written == EncodedSize(|src|) && dest[..written] == Encode(src)
    ensures forall k :: written <= k < dest.Length ==> dest[k] == old(dest[k])
  {
    hide Tab;
    hide Encode;
    hide First;
    hide Second;
    hide Third;
    hide Fourth;
    EncodedSizeIs(src);
    var p, out := 0, 0;
    var n := |src| / 3;
    assert src[0..] == src;
    while n > 0
      invariant p + 3 * n + |src| % 3 == |src| && 0 <= n && 0 <= p <= |src| && 0 <= out
      invariant out + |Encode(src[p..])| == EncodedSize(|src|)
      invariant dest[..out] + Encode(src[p..]) == Encode(src)
      invariant forall k :: EncodedSize(|src|) <= k < dest.Length ==> dest[k] == old(dest[k])
    {
      EncodeTurn(src, p, dest[..out]);
      Put(dest, out, Group(src[p], src[p + 1], src[p + 2]));
      out, p, n := out + 4, p + 3, n - 1;
    }
    EncodeEnd(src[p..]);
    if |src| % 3 != 0 {
      Put(dest, out, Padded(src[p..]));
      out := out + 4;
    }
    written := out;
  }

  /** Four times `*out++ = c`. */
  method Put(dest: array<Byte>, out: nat, c: seq<Byte>)
    requires |c| == 4 && out + 4 <= dest.Length
    modifies dest
    ensures dest[..out + 4] == old(dest[..out]) + c
    ensures forall k :: out + 4 <= k < dest.Length ==> dest[k] == old(dest[k])
  {
    dest[out], dest[out + 1], dest[out + 2], dest[out + 3] := c[0], c[1], c[2], c[3];
  }

  lemma EncodeEnd(x: seq<Byte>)
    requires |x| < 3
    ensures Encode(x) == Padded(x) && |Padded(x)| == if x == [] then 0 else 4
  {
  }

  lemma EncodeTurn(src: seq<Byte>, p: nat, done: seq<Byte>)
    requires p + 3 <= |src|
    ensures var g := Group(src[p], src[p + 1], src[p + 2]);
            && Encode(src[p..]) == g + Encode(src[p + 3..]) && |g| == 4
            && done + g + Encode(src[p + 3..]) == done + Encode(src[p..])
  {
    assert src[p..][3..] == src[p + 3..];
  }

  function Triple(p: Sextet, q: Sextet, r: Sextet, t: Sextet): (c3: seq<Byte>)
    ensures |c3| == 3
  {
    [Byte0(p, q), Byte1(q, r), Byte2(r, t)]
  }

  /** Three bytes from four digits, of which the first `n` are written. */
  method Flush(dest: array<Byte>, out: nat, c4: array<Sextet>, n: nat)
    requires c4.Length == 4 && n <= 3 && out + n <= dest.Length
    modifies dest
    ensures forall k :: out + n <= k < dest.Length ==> dest[k] == old(dest[k])
    ensures dest[..out + n] == old(dest[..out]) + Triple(c4[0], c4[1], c4[2], c4[3])[..n]
  {
    hide Triple;
    var c3 := Triple(c4[0], c4[1], c4[2], c4[3]);
    var j := 0;
    while j < n
      invariant 0 <= j <= n
      invariant dest[..out + j] == old(dest[..out]) + c3[..j]
      invariant forall k :: out + n <= k < dest.Length ==> dest[k] == old(dest[k])
    {
      dest[out + j] := c3[j];
      j := j + 1;
    }
  }

  /** `decode`: how many bytes it wrote, and how many characters it read. */
  method DecodeInto(dest: array<Byte>, src: seq<Byte>) returns (written: nat, read: nat)
    requires |Decode(src)| <= dest.Length
    modifies dest
    ensures written == |Decode(src)| && dest[..written] == Decode(src)
    ensures forall k :: written <= k < dest.Length ==> dest[k] == old(dest[k])
    ensures read == |Sextets(src)|
  {
    hide Triple;
    hide Inverse;
    hide Sextets;
    hide Bytes;
    var c4 := new Sextet[4];
    var i, p, out := 0, 0, 0;
    ghost var all, start := Sextets(src), 0;
    assert src[0..] == src;
    while p < |src| && src[p] != PAD
      invariant 0 <= i < 4 && start + i == p <= |src| && p <= |all|
      invariant Sextets(src[p..]) == all[p..]
      invariant forall j :: 0 <= j < i ==> c4[j] == all[start + j]
      invariant 0 <= out && out + |Bytes(all[start..])| == |Bytes(all)|
      invariant dest[..out] + Bytes(all[start..]) == Bytes(all)
      invariant forall k :: |Bytes(all)| <= k < dest.Length ==> dest[k] == old(dest[k])
    {
      var v := Inverse(src[p]);
      if v == None {
        break;
      }
      SextetsTurn(src, p, all);
      c4[i] := v.value;
      p, i := p + 1, i + 1;
      if i == 4 {
        ghost var g := Triple(c4[0], c4[1], c4[2], c4[3]);
        assert g == Triple(all[start], all[start + 1], all[start + 2], all[start + 3]) && g[..3] == g;
        BytesTurn(all, start, dest[..out]);
        Flush(dest, out, c4, 3);
        out, start := out + 3, start + 4;
        i := 0;
      }
    }
    SextetsEnd(src, p);
    assert all[start..] == c4[..i];
    BytesEnd(c4[..i], c4[..]);
    if i > 0 {
      Flush(dest, out, c4, i - 1);
      out := out + i - 1;
    }
    written, read := out, p;
  }

  lemma SextetsTurn(src: seq<Byte>, p: nat, all: seq<Sextet>)
    requires p < |src| && p <= |all| && Sextets(src[p..]) == all[p..] && Inverse(src[p]).Some?
    ensures p + 1 <= |all| && all[p] == Inverse(src[p]).value && Sextets(src[p + 1..]) == all[p + 1..]
  {
    assert src[p..][1..] == src[p + 1..];
    assert all[p] == Sextets(src[p..])[0];
    assert all[p + 1..] == Sextets(src[p..])[1..];
  }

  lemma SextetsEnd(src: seq<Byte>, p: nat)
    requires p <= |src| && (p < |src| ==> src[p] == PAD || Inverse(src[p]).None?)
    ensures Sextets(src[p..]) == []
  {
  }

  /** The digits left over, and what else is in the group's array. */
  lemma BytesEnd(v: seq<Sextet>, c4: seq<Sextet>)
    requires |v| < 4 == |c4| && v <= c4
    ensures Bytes(v) == if v == [] then [] else Triple(c4[0], c4[1], c4[2], c4[3])[..|v| - 1]
  {
  }

  lemma BytesTurn(all: seq<Sextet>, p: nat, done: seq<Byte>)
    requires p + 4 <= |all|
    ensures var g := Triple(all[p], all[p + 1], all[p + 2], all[p + 3]);
            && Bytes(all[p..]) == g + Bytes(all[p + 4..])
            && done + g + Bytes(all[p + 4..]) == done + Bytes(all[p..])
  {
    assert all[p..][4..] == all[p + 4..];
  }

  /** `base64_encode`. */
  method EncodeString(data: seq<Byte>) returns (s: seq<Byte>)
    ensures s == Encode(data) && Canonical(s) && Decode(s) == data
  {
    var dest := new Byte[EncodedSize(|data|)];
    var n := EncodeInto(dest, data);
    s := dest[..n];
    EncodeDecodes(data);
    EncodeCanonical(data);
  }

  /** `base64_decode`, on text whose bytes fit the buffer it makes. */
  method DecodeString(data: seq<Byte>) returns (x: seq<Byte>)
    requires |Decode(data)| <= DecodedSize(|data|)
    ensures x == Decode(data) && (Encode(x) == data <==> Canonical(data))
  {
    var dest := new Byte[DecodedSize(|data|)];
    var n, _ := DecodeInto(dest, data);
    x := dest[..n];
    DecodeEncodes(data);
  }
}
