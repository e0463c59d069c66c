/** Percent-encoding (section 2.1 of RFC 3986). */
module UrlCodec {
  import opened Common

  const PERCENT: Byte := 37

  predicate IsDigit(c: Byte) { 48 <= c <= 57 }

  predicate IsUpper(c: Byte) { 65 <= c <= 90 }

  predicate IsLower(c: Byte) { 97 <= c <= 122 }

  /** `isxdigit`. */
  predicate IsHex(c: Byte) { IsDigit(c) || 65 <= c <= 70 || 97 <= c <= 102 }

  /** The bytes `urlEncode` leaves as they are. */
  predicate Unreserved(c: Byte) {
    IsDigit(c) || IsUpper(c) || IsLower(c) || c == 45 || c == 95 || c == 46 || c == 126
  }

  /** `hex2dec`; other bytes come back as they are. */
  function Hex2Dec(c: Byte): Byte {
    if IsDigit(c) then c - 48 else if IsLower(c) then c - 97 + 10 else if IsUpper(c) then c - 65 + 10 else c
  }

  /** `dec2hex`. */
  function Dec2Hex(c: Byte): Byte { if c <= 9 then c + 48 else if c <= 15 then c - 10 + 65 else c }

  function EncodeByte(c: Byte): seq<Byte> {
    if Unreserved(c) then [c] else [PERCENT, Dec2Hex(c / 16), Dec2Hex(c % 16)]
  }

  function Encode(s: seq<Byte>): seq<Byte> { if s == [] then [] else EncodeByte(s[0]) + Encode(s[1..]) }

  predicate Escaped(t: seq<Byte>) { |t| > 2 && t[0] == PERCENT && IsHex(t[1]) && IsHex(t[2]) }

  function Merge(t: seq<Byte>): Byte
    requires Escaped(t)
  {
    (Hex2Dec(t[1]) as int * 16 + Hex2Dec(t[2]) as int) as Byte
  }

  function Decode(t: seq<Byte>): seq<Byte> {
    if t == [] then []
    else if Escaped(t) then [Merge(t)] + Decode(t[3..])
    else [t[0]] + Decode(t[1..])
  }

  /** The unreserved characters of section 2.3 of RFC 3986. */
  predicate Plain(c: Byte) {
    var n := c as int;
    || 'A' as int <= n <= 'Z' as int || 'a' as int <= n <= 'z' as int || '0' as int <= n <= '9' as int
    || n == '-' as int || n == '.' as int || n == '_' as int || n == '~' as int
  }

  /** They stay as they are; any other byte becomes a percent sign and its two digits, in upper case. */
  lemma ByteIsSpelled(c: Byte)
    ensures Plain(c) ==> EncodeByte(c) == [c]
    ensures !Plain(c) ==> var e := EncodeByte(c);
                          && |e| == 3 && e[0] as int == '%' as int
                          && Digit(e[1], c as nat / 16) && Digit(e[2], c as nat % 16)
                          && e[1] as int <= 'F' as int && e[2] as int <= 'F' as int
  {
  }

  /** A byte and its hexadecimal form are each other's image. */
  lemma ByteReads(c: Byte, rest: seq<Byte>)
    ensures Decode(EncodeByte(c) + rest) == [c] + Decode(rest)
  {
    var t := EncodeByte(c) + rest;
    assert t[|EncodeByte(c)|..] == rest;
    if !Unreserved(c) {
      HexReads(c / 16);
      HexReads(c % 16);
      assert t[1] == Dec2Hex(c / 16) && t[2] == Dec2Hex(c % 16);
      hide Decode;
      assert Escaped(t) && Merge(t) == c;
    }
  }

  lemma HexReads(d: Byte)
    requires d < 16
    ensures IsHex(Dec2Hex(d)) && Hex2Dec(Dec2Hex(d)) == d
  {
  }

  /** Decoding what was encoded gives every byte string back, whatever follows it. */
  lemma {:induction false} EncodeDecodes(s: seq<Byte>, rest: seq<Byte>)
    ensures Decode(Encode(s) + rest) == s + Decode(rest)
  {
    hide EncodeByte;
    hide Decode;
    if s == [] {
      assert Encode(s) + rest == rest;
    } else {
      assert Encode(s) + rest == EncodeByte(s[0]) + (Encode(s[1..]) + rest);
      ByteReads(s[0], Encode(s[1..]) + rest);
      EncodeDecodes(s[1..], rest);
      assert s == [s[0]] + s[1..];
    }
  }

  // ---- escapes of either case ----

  /** `c` is the hexadecimal digit for `d`: '0' to '9', 'A' to 'F' or 'a' to 'f'. */
  predicate Digit(c: Byte, d: nat) {
    || (d < 10 && c as int == 48 + d)
    || (10 <= d < 16 && (c as int == 65 + (d - 10) || c as int == 97 + (d - 10)))
  }

  /** Digits of either case have their own value, and nothing else is a digit. */
  lemma DigitsExactly(c: Byte, d: nat)
    ensures Digit(c, d) <==> IsHex(c) && Hex2Dec(c) as int == d
  {
  }

  /** A byte written as a percent sign and two digits, each of either case, is that byte. */
  lemma EscapeReads(c1: Byte, c2: Byte, high: nat, low: nat, rest: seq<Byte>)
    requires Digit(c1, high) && Digit(c2, low)
    ensures Decode([37, c1, c2] + rest) == [(16 * high + low) as Byte] + Decode(rest)
  {
    var t := [37, c1, c2] + rest;
    DigitsExactly(c1, high);
    DigitsExactly(c2, low);
    hide Decode;
    hide Hex2Dec;
    hide IsHex;
    hide Digit;
    assert t[3..] == rest;
    assert Escaped(t) && Merge(t) as int == 16 * high + low;
    EscapedTurn(t);
  }

  lemma EscapedTurn(t: seq<Byte>)
    requires Escaped(t)
    ensures Decode(t) == [Merge(t)] + Decode(t[3..])
  {
  }

  /** A percent sign without two digits behind it, and any other byte, stands for itself. */
  lemma PlainReads(t: seq<Byte>)
    requires t != []
    requires !(|t| > 2 && t[0] as int == '%' as int && exists h: nat, l: nat :: Digit(t[1], h) && Digit(t[2], l))
    ensures Decode(t) == [t[0]] + Decode(t[1..])
  {
    if Escaped(t) {
      DigitsExactly(t[1], Hex2Dec(t[1]) as nat);
      DigitsExactly(t[2], Hex2Dec(t[2]) as nat);
      assert false;
    }
  }

  /** The same text, but for the case of digits in its escapes. */
  predicate Recased(t: seq<Byte>, u: seq<Byte>) {
    if t == [] || u == [] then t == u
    else if Escaped(t) then
      Escaped(u) && SameDigit(t[1], u[1]) && SameDigit(t[2], u[2]) && Recased(t[3..], u[3..])
    else t[0] == u[0] && !Escaped(u) && Recased(t[1..], u[1..])
  }

  predicate SameDigit(c: Byte, d: Byte) {
    || c == d
    || (65 <= c <= 70 && d as int == c as int + 32)
    || (65 <= d <= 70 && c as int == d as int + 32)
  }

  /** Upper and lower case are the same in escapes (section 2.1 of RFC 3986). */
  lemma {:induction false} CaseChangesNothing(t: seq<Byte>, u: seq<Byte>)
    requires Recased(t, u)
    ensures Decode(t) == Decode(u)
  {
    if t != [] && u != [] {
      if Escaped(t) {
        assert Merge(t) == Merge(u);
        CaseChangesNothing(t[3..], u[3..]);
      } else {
        CaseChangesNothing(t[1..], u[1..]);
      }
    }
  }

  predicate UpperHex(c: Byte) { IsDigit(c) || 65 <= c <= 70 }

  /** Nothing but unreserved bytes, and upper-case escapes of the others. */
  predicate Canonical(t: seq<Byte>) {
    || t == []
    || (Unreserved(t[0]) && Canonical(t[1..]))
    || (Escaped(t) && UpperHex(t[1]) && UpperHex(t[2]) && !Unreserved(Merge(t)) && Canonical(t[3..]))
  }

  lemma {:induction false} EncodeCanonical(s: seq<Byte>)
    ensures Canonical(Encode(s))
  {
    if s != [] {
      EncodeCanonical(s[1..]);
      var c, t := s[0], Encode(s);
      assert t[|EncodeByte(c)|..] == Encode(s[1..]);
      if !Unreserved(c) {
        assert t[1] == Dec2Hex(c / 16) && t[2] == Dec2Hex(c % 16);
        HexReads(c / 16);
        HexReads(c % 16);
        assert Escaped(t) && Merge(t) == c;
      }
    }
  }

  lemma {:induction false} CanonicalEncodes(t: seq<Byte>)
    requires Canonical(t)
    ensures Encode(Decode(t)) == t
  {
    if t != [] {
      assert Unreserved(t[0]) ==> !Escaped(t);
      if Escaped(t) {
        CanonicalEncodes(t[3..]);
        assert ([Merge(t)] + Decode(t[3..]))[1..] == Decode(t[3..]);
        assert t == [PERCENT, t[1], t[2]] + t[3..];
      } else {
        CanonicalEncodes(t[1..]);
        assert ([t[0]] + Decode(t[1..]))[1..] == Decode(t[1..]);
        assert t == [t[0]] + t[1..];
      }
    }
  }

  /** Text comes back from its bytes exactly when it is canonical. */
  lemma {:induction false} DecodeEncodes(t: seq<Byte>)
    ensures Encode(Decode(t)) == t <==> Canonical(t)
  {
    EncodeCanonical(Decode(t));
    if Canonical(t) {
      CanonicalEncodes(t);
    }
  }

  /** Encoded text is made of unreserved bytes and percent signs, so it holds no separator. */
  lemma {:induction false} EncodeAvoids(s: seq<Byte>, c: Byte)
    requires !Plain(c) && c as int != '%' as int
    ensures c !in Encode(s)
  {
    if s != [] {
      EncodeAvoids(s[1..], c);
    }
  }

  /** `urlEncode`. */
  method UrlEncode(value: seq<Byte>) returns (escaped: seq<Byte>)
    ensures escaped == Encode(value) && Decode(escaped) == value
  {
    hide Dec2Hex;
    hide Unreserved;
    hide Encode;
    hide EncodeByte;
    hide Decode;
    escaped := [];
    assert value[0..] == value;
    for i := 0 to |value|
      invariant escaped + Encode(value[i..]) == Encode(value)
    {
      var c := value[i];
      EncodeTurn(value, i, escaped);
      if Unreserved(c) {
        escaped := escaped + [c];
      } else {
        escaped := escaped + [PERCENT, Dec2Hex(c / 16), Dec2Hex(c % 16)];
      }
    }
    EncodeEnds(value, escaped);
  }

  lemma EncodeTurn(value: seq<Byte>, i: nat, done: seq<Byte>)
    requires i < |value|
    ensures done + Encode(value[i..]) == done + EncodeByte(value[i]) + Encode(value[i + 1..])
    ensures var c := value[i];
            EncodeByte(c) == if Unreserved(c) then [c] else [PERCENT, Dec2Hex(c / 16), Dec2Hex(c % 16)]
  {
    assert value[i..][1..] == value[i + 1..];
  }

  lemma EncodeEnds(value: seq<Byte>, escaped: seq<Byte>)
    requires escaped + Encode(value[|value|..]) == Encode(value)
    ensures escaped == Encode(value) && Decode(escaped) == value
  {
    hide EncodeByte;
    hide Decode;
    assert value[|value|..] == [] && escaped + [] == escaped;
    EncodeDecodes(value, []);
    assert Encode(value) + [] == Encode(value) && value + [] == value;
    NothingDecodes();
  }

  lemma DecodeTurn(value: seq<Byte>, i: nat, done: seq<Byte>)
    requires i < |value|
    ensures var t := value[i..];
            if Escaped(t) then done + Decode(t) == done + [Merge(t)] + Decode(value[i + 3..])
            else done + Decode(t) == done + [value[i]] + Decode(value[i + 1..])
  {
    hide Hex2Dec;
    hide IsHex;
    var t := value[i..];
    if Escaped(t) {
      assert t[3..] == value[i + 3..];
    } else {
      assert t[1..] == value[i + 1..];
    }
  }

  /** `urlDecode`. */
  method UrlDecode(value: seq<Byte>) returns (escaped: seq<Byte>)
    ensures escaped == Decode(value)
  {
    hide Decode;
    hide Merge;
    hide IsHex;
    escaped := [];
    var i := 0;
    assert value[0..] == value;
    while i < |value|
      invariant 0 <= i <= |value| && escaped + Decode(value[i..]) == Decode(value)
    {
      DecodeTurn(value, i, escaped);
      if value[i] == PERCENT && i + 2 < |value| && IsHex(value[i + 1]) && IsHex(value[i + 2]) {
        escaped := escaped + [Merge(value[i..])];
        i := i + 2;
      } else {
        escaped := escaped + [value[i]];
      }
      i := i + 1;
    }
    NothingDecodes();
    assert value[i..] == [];
  }

  lemma NothingDecodes()
    ensures Decode([]) == []
  {
  }
}
