/** `encode_path`: a name's UTF-8 bytes percent-encoded for a URL path (sections 2.1 and
    2.3 of RFC 3986). */
module PercentEncoding {
  import opened Basics
  import opened Wrappers
  import opened GuardText
  import opened Utf8Decoding

  predicate IsByte(b: nat) {
    b < 256
  }

  predicate AllBytes(s: seq<nat>) {
    forall i | 0 <= i < |s| :: IsByte(s[i])
  }

  predicate Unreserved(b: nat) {
    || 'A' as int <= b <= 'Z' as int || 'a' as int <= b <= 'z' as int
    || '0' as int <= b <= '9' as int
    || b == '-' as int || b == '_' as int || b == '.' as int || b == '~' as int
  }

  function HexDigit(d: nat): char
    requires d < 16
  {
    if d < 10 then ('0' as int + d) as char else ('A' as int + d - 10) as char
  }

  /** A hexadecimal digit of either case, as a decoder accepts it. */
  function HexValue(c: char): Option<nat> {
    if '0' <= c <= '9' then Some(c as int - '0' as int)
    else if 'A' <= c <= 'F' then Some(c as int - 'A' as int + 10)
    else if 'a' <= c <= 'f' then Some(c as int - 'a' as int + 10)
    else None
  }

  /** The unreserved characters of section 2.3 of RFC 3986, one by one. */
  lemma UnreservedExactly(c: char)
    ensures Unreserved(c as int) <==> c in UPPER || c in LOWER || c in "0123456789-_.~"
  {
    if 'A' <= c <= 'Z' {
      Alphabet(c as int - 'A' as int);
      assert UPPER[c as int - 'A' as int] == c;
    } else if 'a' <= c <= 'z' {
      Alphabet(c as int - 'a' as int);
      assert LOWER[c as int - 'a' as int] == c;
    }
    forall k | 0 <= k < 26 ensures Unreserved(UPPER[k] as int) && Unreserved(LOWER[k] as int) {
      Alphabet(k);
    }
  }

  lemma HexDigitExactly(d: nat)
    requires d < 16
    ensures HexDigit(d) == "0123456789ABCDEF"[d]
  {
  }

  function EncodeByte(b: nat): string
    requires IsByte(b)
  {
    if Unreserved(b) then [b as char] else ['%', HexDigit(b / 16), HexDigit(b % 16)]
  }

  function Encode(s: seq<nat>): string
    requires AllBytes(s)
  {
    if s == [] then [] else EncodeByte(s[0]) + Encode(s[1..])
  }

  method EncodePath(name: Text) returns (encoded: string)
    ensures AllBytes(Bytes(name)) && encoded == Encode(Bytes(name))
  {
    hide Encode, Bytes, Utf8;
    BytesAreBytes(name);
    NothingEncoded();
    var bytes := Bytes(name);
    encoded := "";
    for i := 0 to |bytes|
      invariant encoded == Encode(bytes[..i])
    {
      var byte := bytes[i];
      EncodeNext(bytes, i);
      if Unreserved(byte) {
        encoded := encoded + [byte as char];
      } else {
        encoded := encoded + "%" + [HexDigit(byte / 16), HexDigit(byte % 16)];
      }
    }
    assert bytes[..|bytes|] == bytes;
  }

  lemma EncodeNext(bytes: seq<nat>, i: nat)
    requires AllBytes(bytes) && i < |bytes|
    ensures Encode(bytes[..i + 1]) == Encode(bytes[..i]) + EncodeByte(bytes[i])
  {
    hide Encode, EncodeByte;
    NothingEncoded();
    EncodeFirst(bytes[i], []);
    EncodeAppend(bytes[..i], [bytes[i]]);
    assert [bytes[i]] + [] == [bytes[i]];
    assert bytes[..i + 1] == bytes[..i] + [bytes[i]];
  }

  lemma {:induction false} BytesAreBytes(s: Text)
    ensures AllBytes(Bytes(s))
  {
    if s != [] {
      Utf8Bytes(s[0]);
      BytesAreBytes(s[1..]);
    }
  }

  lemma Utf8Bytes(c: char)
    ensures AllBytes(Utf8(c))
  {
  }

  lemma {:induction false} EncodeAppend(a: seq<nat>, b: seq<nat>)
    requires AllBytes(a) && AllBytes(b)
    ensures AllBytes(a + b) && Encode(a + b) == Encode(a) + Encode(b)
  {
    hide Encode, EncodeByte;
    if a == [] {
      assert a + b == b;
      NothingEncoded();
    } else {
      EncodeAppend(a[1..], b);
      EncodeFirst(a[0], a[1..]);
      EncodeFirst(a[0], a[1..] + b);
      assert a == [a[0]] + a[1..] && a + b == [a[0]] + (a[1..] + b);
    }
  }

  // ---- Decoding ----

  /** Percent-decoding; a `%` without two hexadecimal digits or a character outside ASCII is
      malformed. */
  function Decode(s: string): Option<seq<nat>> {
    if s == [] then Some([])
    else if s[0] == '%' then
      if |s| < 3 || HexValue(s[1]).None? || HexValue(s[2]).None? then None
      else
        match Decode(s[3..])
        case None => None
        case Some(rest) => Some([HexValue(s[1]).value * 16 + HexValue(s[2]).value] + rest)
    else if s[0] as int >= 0x80 then None
    else
      match Decode(s[1..])
      case None => None
      case Some(rest) => Some([s[0] as int] + rest)
  }

  lemma HexRoundTrip(b: nat)
    requires IsByte(b)
    ensures HexValue(HexDigit(b / 16)) == Some(b / 16) && HexValue(HexDigit(b % 16)) == Some(b % 16)
    ensures b / 16 * 16 + b % 16 == b
  {
  }

  /** The encoding of one byte decodes to that byte. */
  lemma DecodeFirst(b: nat, rest: string)
    requires IsByte(b)
    ensures Decode(EncodeByte(b) + rest) ==
      match Decode(rest) case None => None case Some(tail) => Some([b] + tail)
  {
    HexRoundTrip(b);
    var s := EncodeByte(b) + rest;
    assert s[|EncodeByte(b)|..] == rest;
  }

  /** Decoding returns the original bytes, so no two names are encoded alike. */
  lemma {:induction false} DecodeEncode(s: seq<nat>)
    requires AllBytes(s)
    ensures Decode(Encode(s)) == Some(s)
  {
    hide EncodeByte;
    if s != [] {
      DecodeEncode(s[1..]);
      DecodeFirst(s[0], Encode(s[1..]));
      assert s == [s[0]] + s[1..];
    }
  }

  /** A text in which everything but the unreserved characters is written as `%` and two
      upper-case hexadecimal digits. */
  predicate Canonical(s: string) {
    if s == [] then true
    else if s[0] == '%' then
      && |s| >= 3 && IsUpperHex(s[1]) && IsUpperHex(s[2])
      && !Unreserved(HexValue(s[1]).value * 16 + HexValue(s[2]).value)
      && Canonical(s[3..])
    else Unreserved(s[0] as int) && Canonical(s[1..])
  }

  predicate IsUpperHex(c: char) {
    '0' <= c <= '9' || 'A' <= c <= 'F'
  }

  lemma {:induction false} EncodeIsCanonical(s: seq<nat>)
    requires AllBytes(s)
    ensures Canonical(Encode(s))
  {
    if s != [] {
      var e := Encode(s);
      EncodeIsCanonical(s[1..]);
      HexRoundTrip(s[0]);
      assert if Unreserved(s[0]) then e[1..] == Encode(s[1..]) else e[3..] == Encode(s[1..]);
    }
  }

  lemma CanonicalFirst(s: string) returns (b: nat, n: nat)
    requires Canonical(s) && s != []
    ensures 0 < n <= |s| && Canonical(s[n..])
    ensures IsByte(b) && s[..n] == EncodeByte(b)
  {
    if s[0] == '%' {
      UpperHexRoundTrip(s[1], s[2]);
      b, n := HexValue(s[1]).value * 16 + HexValue(s[2]).value, 3;
    } else {
      b, n := s[0] as int, 1;
    }
  }

  /** Conversely every such text is the encoding of the bytes it decodes to. */
  lemma {:induction false} EncodeDecode(s: string)
    requires Canonical(s)
    ensures Decode(s).Some? && AllBytes(Decode(s).value) && Encode(Decode(s).value) == s
  {
    if s == [] {
      NothingEncoded();
    } else {
      hide Encode, Decode, Canonical, EncodeByte;
      var b, n := CanonicalFirst(s);
      EncodeDecode(s[n..]);
      assert s == s[..n] + s[n..];
      DecodeFirst(b, s[n..]);
      EncodeFirst(b, Decode(s[n..]).value);
    }
  }

  lemma NothingEncoded()
    ensures Encode([]) == []
  {
  }

  lemma EncodeFirst(b: nat, rest: seq<nat>)
    requires IsByte(b) && AllBytes(rest)
    ensures AllBytes([b] + rest) && Encode([b] + rest) == EncodeByte(b) + Encode(rest)
  {
    assert ([b] + rest)[1..] == rest;
  }

  lemma UpperHexRoundTrip(c: char, d: char)
    requires IsUpperHex(c) && IsUpperHex(d)
    ensures var b := HexValue(c).value * 16 + HexValue(d).value;
      IsByte(b) && HexDigit(b / 16) == c && HexDigit(b % 16) == d
  {
  }

  function Escaped(s: seq<nat>): nat {
    if s == [] then 0 else (if Unreserved(s[0]) then 0 else 1) + Escaped(s[1..])
  }

  lemma {:induction false} EncodedLength(s: seq<nat>)
    requires AllBytes(s)
    ensures |Encode(s)| == |s| + 2 * Escaped(s)
  {
    if s != [] {
      EncodedLength(s[1..]);
    }
  }

  // ---- Names ----

  /** Different names have different encodings. */
  lemma EncodePathInjective(name: Text, other: Text)
    requires AllBytes(Bytes(name)) && AllBytes(Bytes(other))
    requires Encode(Bytes(name)) == Encode(Bytes(other))
    ensures name == other
  {
    DecodeEncode(Bytes(name));
    DecodeEncode(Bytes(other));
    BytesInjective(name, other);
  }
}
