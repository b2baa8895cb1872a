/**
 The base64url helpers of lib/session.ts and lib/session-edge.ts (section 5 of RFC 4648): standard base64, then
 the URL alphabet, then the trailing padding stripped; and back.
 */
module Base64Url {
  import opened Common

  type Byte = x: int | 0 <= x < 256
  type Sextet = x: int | 0 <= x < 64

  type Bytes = seq<Byte>

  /** The standard alphabet. */
  function CharOf(i: Sextet): char {
    if i < 26 then ('A' as int + i) as char
    else if i < 52 then ('a' as int + i - 26) as char
    else if i < 62 then ('0' as int + i - 52) as char
    else if i == 62 then '+' else '/'
  }

  function ValueOf(c: char): Option<Sextet> {
    if 'A' <= c <= 'Z' then Some(c as int - 'A' as int)
    else if 'a' <= c <= 'z' then Some(c as int - 'a' as int + 26)
    else if '0' <= c <= '9' then Some(c as int - '0' as int + 52)
    else if c == '+' then Some(62)
    else if c == '/' then Some(63)
    else None
  }

  /** The four sextets of three bytes, and the three bytes of four sextets. */
  function S0(x: Byte): Sextet { x / 4 }
  function S1(x: Byte, y: Byte): Sextet { x % 4 * 16 + y / 16 }
  function S2(y: Byte, z: Byte): Sextet { y % 16 * 4 + z / 64 }
  function S3(z: Byte): Sextet { z % 64 }
  function B0(s0: Sextet, s1: Sextet): Byte { s0 * 4 + s1 / 16 }
  function B1(s1: Sextet, s2: Sextet): Byte { s1 % 16 * 16 + s2 / 4 }
  function B2(s2: Sextet, s3: Sextet): Byte { s2 % 4 * 64 + s3 }

  lemma Regroup(x: Byte, y: Byte, z: Byte)
    ensures B0(S0(x), S1(x, y)) == x && B1(S1(x, y), S2(y, z)) == y && B2(S2(y, z), S3(z)) == z
  {
  }

  /** `toString('base64')`, `btoa`. */
  function Encode(b: Bytes): string {
    if |b| == 0 then ""
    else if |b| == 1 then [CharOf(S0(b[0])), CharOf(S1(b[0], 0)), '=', '=']
    else if |b| == 2 then [CharOf(S0(b[0])), CharOf(S1(b[0], b[1])), CharOf(S2(b[1], 0)), '=']
    else [CharOf(S0(b[0])), CharOf(S1(b[0], b[1])), CharOf(S2(b[1], b[2])), CharOf(S3(b[2]))] + Encode(b[3..])
  }

  /** The four characters of three bytes spell them, most significant bits first. */
  lemma GroupIsBigEndian(b: Bytes) returns (s0: Sextet, s1: Sextet, s2: Sextet, s3: Sextet)
    requires |b| >= 3
    ensures Encode(b) == [CharOf(s0), CharOf(s1), CharOf(s2), CharOf(s3)] + Encode(b[3..])
    ensures ((s0 as int * 64 + s1) * 64 + s2) * 64 + s3 == (b[0] as int * 256 + b[1]) * 256 + b[2]
  {
    s0, s1, s2, s3 := S0(b[0]), S1(b[0], b[1]), S2(b[1], b[2]), S3(b[2]);
  }

  /** One group of four characters; only the last group may be padded.  Bits beyond the last whole byte are dropped. */
  function DecodeGroup(c0: char, c1: char, c2: char, c3: char, last: bool): (group: Option<Bytes>)
    ensures group.Some? ==> |group.value| == if !last || c3 != '=' then 3 else if c2 == '=' then 1 else 2
  {
    var (v0, v1, v2, v3) := (ValueOf(c0), ValueOf(c1), ValueOf(c2), ValueOf(c3));
    if v0.None? || v1.None? then None
    else if last && c2 == '=' && c3 == '=' then Some([B0(v0.value, v1.value)])
    else if v2.None? then None
    else if last && c3 == '=' then Some([B0(v0.value, v1.value), B1(v1.value, v2.value)])
    else if v3.None? then None
    else Some([B0(v0.value, v1.value), B1(v1.value, v2.value), B2(v2.value, v3.value)])
  }

  /** `atob`: None where it throws. */
  function Decode(s: string): Option<Bytes>
    decreases |s|
  {
    if s == "" then Some([])
    else if |s| < 4 then None
    else
      var group, rest := DecodeGroup(s[0], s[1], s[2], s[3], |s| == 4), Decode(s[4..]);
      if group.None? || rest.None? then None else Some(group.value + rest.value)
  }

  lemma CharRoundTrip(i: Sextet)
    ensures ValueOf(CharOf(i)) == Some(i)
    ensures CharOf(i) != '='
  {
  }

  lemma FullGroup(x: Byte, y: Byte, z: Byte, c0: char, c1: char, c2: char, c3: char, last: bool)
    requires ValueOf(c0) == Some(S0(x)) && ValueOf(c1) == Some(S1(x, y))
    requires ValueOf(c2) == Some(S2(y, z)) && ValueOf(c3) == Some(S3(z))
    ensures DecodeGroup(c0, c1, c2, c3, last) == Some([x, y, z])
  {
    Regroup(x, y, z);
  }

  lemma GroupOfTwo(x: Byte, y: Byte, c0: char, c1: char, c2: char)
    requires ValueOf(c0) == Some(S0(x)) && ValueOf(c1) == Some(S1(x, y)) && ValueOf(c2) == Some(S2(y, 0))
    ensures DecodeGroup(c0, c1, c2, '=', true) == Some([x, y])
  {
    Regroup(x, y, 0);
  }

  lemma PairGroup(c0: char, c1: char, s0: Sextet, s1: Sextet)
    requires ValueOf(c0) == Some(s0) && ValueOf(c1) == Some(s1)
    ensures DecodeGroup(c0, c1, '=', '=', true) == Some([B0(s0, s1)])
  {
  }

  lemma GroupOfOne(x: Byte, c0: char, c1: char)
    requires ValueOf(c0) == Some(S0(x)) && ValueOf(c1) == Some(S1(x, 0))
    ensures DecodeGroup(c0, c1, '=', '=', true) == Some([x])
  {
    PairGroup(c0, c1, S0(x), S1(x, 0));
    Regroup(x, 0, 0);
  }

  lemma DecodeFour(s: string, c0: char, c1: char, c2: char, c3: char, rest: string)
    requires s == [c0, c1, c2, c3] + rest
    ensures var group := DecodeGroup(c0, c1, c2, c3, rest == "");
            Decode(s) == if group.None? || Decode(rest).None? then None else Some(group.value + Decode(rest).value)
  {
    assert s[4..] == rest;
  }

  /** Decoding undoes encoding, on every byte string. */
  lemma {:induction false} DecodeEncode(b: Bytes)
    ensures Decode(Encode(b)) == Some(b)
    decreases |b|
  {
    if |b| == 0 {
    } else if |b| == 1 {
      DecodeOne(b[0], Encode(b));
      assert b == [b[0]];
    } else if |b| == 2 {
      DecodeTwo(b[0], b[1], Encode(b));
      assert b == [b[0], b[1]];
    } else {
      DecodeEncode(b[3..]);
      DecodeEncodeLong(b, b[3..], Encode(b[3..]));
    }
  }

  lemma DecodeEncodeLong(b: Bytes, rest: Bytes, code: string)
    requires |b| >= 3 && rest == b[3..] && code == Encode(rest) && Decode(code) == Some(rest)
    ensures Decode(Encode(b)) == Some(b)
  {
    var s := Encode(b);
    assert s == [CharOf(S0(b[0])), CharOf(S1(b[0], b[1])), CharOf(S2(b[1], b[2])), CharOf(S3(b[2]))] + code;
    DecodeFull(b[0], b[1], b[2], code, s);
    assert b == [b[0], b[1], b[2]] + rest;
  }

  /** A last group alone. */
  lemma DecodeLast(s: string, c0: char, c1: char, c2: char, c3: char, b: Bytes)
    requires s == [c0, c1, c2, c3] && DecodeGroup(c0, c1, c2, c3, true) == Some(b)
    ensures Decode(s) == Some(b)
  {
    assert s == [c0, c1, c2, c3] + "";
    DecodeFour(s, c0, c1, c2, c3, "");
    assert b + [] == b;
  }

  lemma DecodeOne(x: Byte, s: string)
    requires s == [CharOf(S0(x)), CharOf(S1(x, 0)), '=', '=']
    ensures Decode(s) == Some([x])
  {
    var c0, c1 := CharOf(S0(x)), CharOf(S1(x, 0));
    CharRoundTrip(S0(x));
    CharRoundTrip(S1(x, 0));
    GroupOfOne(x, c0, c1);
    DecodeLast(s, c0, c1, '=', '=', [x]);
  }

  lemma DecodeTwo(x: Byte, y: Byte, s: string)
    requires s == [CharOf(S0(x)), CharOf(S1(x, y)), CharOf(S2(y, 0)), '=']
    ensures Decode(s) == Some([x, y])
  {
    var c0, c1, c2 := CharOf(S0(x)), CharOf(S1(x, y)), CharOf(S2(y, 0));
    CharRoundTrip(S0(x));
    CharRoundTrip(S1(x, y));
    CharRoundTrip(S2(y, 0));
    GroupOfTwo(x, y, c0, c1, c2);
    DecodeLast(s, c0, c1, c2, '=', [x, y]);
  }

  lemma DecodeFull(x: Byte, y: Byte, z: Byte, rest: string, s: string)
    requires s == [CharOf(S0(x)), CharOf(S1(x, y)), CharOf(S2(y, z)), CharOf(S3(z))] + rest && Decode(rest).Some?
    ensures Decode(s) == Some([x, y, z] + Decode(rest).value)
  {
    var c0, c1, c2, c3 := CharOf(S0(x)), CharOf(S1(x, y)), CharOf(S2(y, z)), CharOf(S3(z));
    CharRoundTrip(S0(x));
    CharRoundTrip(S1(x, y));
    CharRoundTrip(S2(y, z));
    CharRoundTrip(S3(z));
    FullGroup(x, y, z, c0, c1, c2, c3, rest == "");
    DecodeFour(s, c0, c1, c2, c3, rest);
  }

  /* -------------------------- alphabet and padding --------------------------- */

  function ToUrlChar(c: char): char {
    if c == '+' then '-' else if c == '/' then '_' else c
  }

  function FromUrlChar(c: char): char {
    if c == '-' then '+' else if c == '_' then '/' else c
  }

  function MapChars(f: char -> char, s: string): string {
    seq(|s|, i requires 0 <= i < |s| => f(s[i]))
  }

  /** replace(/=+$/g, '') */
  function StripPadding(s: string): string {
    if s != "" && s[|s| - 1] == '=' then StripPadding(s[..|s| - 1]) else s
  }

  /** '='.repeat((4 - length % 4) % 4) */
  function Padding(n: nat): string {
    if n % 4 == 0 then "" else if n % 4 == 1 then "===" else if n % 4 == 2 then "==" else "="
  }

  function UrlEncode(b: Bytes): string {
    StripPadding(MapChars(ToUrlChar, Encode(b)))
  }

  /** The text both decoders hand to their base64 decoder. */
  function Restored(s: string): string {
    MapChars(FromUrlChar, s) + Padding(|s|)
  }

  predicate IsUrlChar(c: char) {
    ValueOf(c).Some? || c == '-' || c == '_'
  }

  /** The characters of Encode before its padding. */
  ghost function Body(b: Bytes): string {
    if |b| == 0 then ""
    else if |b| == 1 then [CharOf(S0(b[0])), CharOf(S1(b[0], 0))]
    else if |b| == 2 then [CharOf(S0(b[0])), CharOf(S1(b[0], b[1])), CharOf(S2(b[1], 0))]
    else [CharOf(S0(b[0])), CharOf(S1(b[0], b[1])), CharOf(S2(b[1], b[2])), CharOf(S3(b[2]))] + Body(b[3..])
  }

  lemma {:induction false} BodyLength(b: Bytes)
    ensures |Body(b)| % 4 != 1 && (b != [] ==> Body(b) != "")
    decreases |b|
  {
    if |b| >= 3 {
      BodyLength(b[3..]);
      PaddingPeriod(|Body(b[3..])|);
    }
  }

  lemma PaddingPeriod(n: nat)
    ensures Padding(n + 4) == Padding(n) && (n + 4) % 4 == n % 4
  {
  }

  lemma {:induction false} EncodeIsBodyPadded(b: Bytes)
    ensures Encode(b) == Body(b) + Padding(|Body(b)|)
    decreases |b|
  {
    if |b| >= 3 {
      EncodeIsBodyPadded(b[3..]);
      var head := [CharOf(S0(b[0])), CharOf(S1(b[0], b[1])), CharOf(S2(b[1], b[2])), CharOf(S3(b[2]))];
      var tail := Body(b[3..]);
      var pad := Padding(|tail|);
      PaddingPeriod(|tail|);
      assert Encode(b) == head + (tail + pad);
      assert head + (tail + pad) == (head + tail) + pad;
    }
  }

  lemma {:induction false} BodyChars(b: Bytes, i: nat)
    requires i < |Body(b)|
    ensures ValueOf(Body(b)[i]).Some?
    decreases |b|
  {
    if |b| >= 3 && i >= 4 {
      BodyChars(b[3..], i - 4);
    } else if |b| == 1 {
      CharRoundTrip(S0(b[0]));
      CharRoundTrip(S1(b[0], 0));
    } else if |b| == 2 {
      CharRoundTrip(S0(b[0]));
      CharRoundTrip(S1(b[0], b[1]));
      CharRoundTrip(S2(b[1], 0));
    } else {
      CharRoundTrip(S0(b[0]));
      CharRoundTrip(S1(b[0], b[1]));
      CharRoundTrip(S2(b[1], b[2]));
      CharRoundTrip(S3(b[2]));
    }
  }

  lemma StripAppend(body: string, n: nat)
    requires forall i | 0 <= i < |body| :: body[i] != '='
    ensures StripPadding(body + Padding(n)) == body
  {
    assert body + "" == body;
    assert StripPadding(body) == body;
    assert (body + "=")[..|body|] == body;
    assert StripPadding(body + "=") == body;
    assert (body + "==")[..|body| + 1] == body + "=";
    assert StripPadding(body + "==") == body;
    assert (body + "===")[..|body| + 2] == body + "==";
  }

  /** The encoder's output is over the URL alphabet, never one character past a group, and restores to the
      standard text it came from. */
  lemma UrlEncodeRestores(b: Bytes)
    ensures Restored(UrlEncode(b)) == Encode(b)
    ensures forall i | 0 <= i < |UrlEncode(b)| :: IsUrlChar(UrlEncode(b)[i])
    ensures |UrlEncode(b)| % 4 != 1 && (b != [] ==> UrlEncode(b) != "")
  {
    var body := Body(b);
    var url := MapChars(ToUrlChar, body);
    EncodeIsBodyPadded(b);
    BodyLength(b);
    forall i | 0 <= i < |body| ensures ValueOf(body[i]).Some? {
      BodyChars(b, i);
    }
    ToUrlInverts(body);
    StripAppend(url, |body|);
    MapAppendPadding(body, |body|);
  }

  lemma MapAppendPadding(body: string, n: nat)
    ensures MapChars(ToUrlChar, body + Padding(n)) == MapChars(ToUrlChar, body) + Padding(n)
  {
    var pad := Padding(n);
    forall i | 0 <= i < |pad| ensures ToUrlChar(pad[i]) == pad[i] {
    }
  }

  lemma UrlCharInverts(c: char)
    requires ValueOf(c).Some?
    ensures FromUrlChar(ToUrlChar(c)) == c && IsUrlChar(ToUrlChar(c)) && ToUrlChar(c) != '='
  {
  }

  lemma ToUrlInverts(body: string)
    requires forall i | 0 <= i < |body| :: ValueOf(body[i]).Some?
    ensures MapChars(FromUrlChar, MapChars(ToUrlChar, body)) == body
    ensures forall i | 0 <= i < |body| :: IsUrlChar(MapChars(ToUrlChar, body)[i]) && MapChars(ToUrlChar, body)[i] != '='
  {
    var url := MapChars(ToUrlChar, body);
    forall i | 0 <= i < |body| ensures FromUrlChar(url[i]) == body[i] && IsUrlChar(url[i]) && url[i] != '=' {
      UrlCharInverts(body[i]);
    }
  }

  /** Strip and restore lose nothing: decoding undoes encoding on every byte string. */
  lemma UrlRoundTrip(b: Bytes)
    ensures Decode(Restored(UrlEncode(b))) == Some(b)
  {
    UrlEncodeRestores(b);
    DecodeEncode(b);
  }

  /** On the URL alphabet the restored text decodes exactly when it is not one character past a group. */
  lemma {:induction false} DecodesIff(s: string, pad: string)
    requires forall i | 0 <= i < |s| :: ValueOf(s[i]).Some?
    requires pad == Padding(|s|)
    ensures Decode(s + pad).Some? <==> |s| % 4 != 1
    decreases |s|
  {
    if |s| >= 4 {
      var rest := s[4..];
      PaddingPeriod(|rest|);
      DecodesIff(rest, pad);
      assert s + pad == [s[0], s[1], s[2], s[3]] + (rest + pad);
      DecodeFour(s + pad, s[0], s[1], s[2], s[3], rest + pad);
    } else {
      ShortDecodesIff(s, pad);
    }
  }

  lemma ShortDecodesIff(s: string, pad: string)
    requires |s| < 4 && (forall i | 0 <= i < |s| :: ValueOf(s[i]).Some?)
    requires pad == Padding(|s|)
    ensures Decode(s + pad).Some? <==> |s| != 1
  {
    if |s| == 3 {
      DecodeFour(s + pad, s[0], s[1], s[2], '=', "");
    } else if |s| == 2 {
      DecodeFour(s + pad, s[0], s[1], '=', '=', "");
    } else if |s| == 1 {
      DecodeFour(s + pad, s[0], '=', '=', '=', "");
    }
  }

  /** Without padding the bytes come in threes. */
  lemma {:induction false} DecodedLength(s: string)
    requires forall i | 0 <= i < |s| :: ValueOf(s[i]).Some?
    ensures Decode(s).Some? ==> |Decode(s).value| % 3 == 0
    decreases |s|
  {
    if |s| >= 4 {
      var rest := s[4..];
      assert s == [s[0], s[1], s[2], s[3]] + rest;
      forall i | 0 <= i < |rest| ensures ValueOf(rest[i]).Some? {
        assert rest[i] == s[4 + i];
      }
      DecodedLength(rest);
      DecodeFour(s, s[0], s[1], s[2], s[3], rest);
      assert s[3] != '=';
    }
  }

  /* ------------------------- the XOR comparison ------------------------------ */

  /** safeEqual of lib/session-edge.ts, on UTF-16 code units: the accumulated difference is zero exactly when the
      strings are equal. */
  method SafeEqual(left: seq<bv16>, right: seq<bv16>) returns (equal: bool)
    ensures equal <==> left == right
  {
    if |left| != |right| {
      return false;
    }
    var mismatch: bv16 := 0;
    var index := 0;
    while index < |left|
      invariant 0 <= index <= |left|
      invariant mismatch == 0 <==> forall k | 0 <= k < index :: left[k] == right[k]
    {
      OrXorZero(mismatch, left[index], right[index]);
      mismatch := mismatch | (left[index] ^ right[index]);
      index := index + 1;
    }
    equal := mismatch == 0;
  }

  lemma OrXorZero(acc: bv16, a: bv16, b: bv16)
    ensures acc | (a ^ b) == 0 <==> acc == 0 && a == b
  {
  }
}
