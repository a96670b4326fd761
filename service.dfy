/**
 * Conversion of a base64url-encoded push-server key into bytes in the service
 * worker (`urlBase64ToUint8Array`, access-point-ui/public/service.js). The
 * browser's `atob` is modelled as the forgiving-base64 decoder of the HTML
 * standard over the alphabet of section 4 of RFC 4648.
 */
module ServiceWorker {
  import opened Wrappers

  /** An element of a `Uint8Array`. */
  newtype byte = x: int | 0 <= x < 256

  // ---------------------------------------------------------------------
  // Alphabets (sections 4 and 5 of RFC 4648)
  // ---------------------------------------------------------------------

  /** A character of the standard alphabet (section 4 of RFC 4648); `=` is not one. */
  predicate IsStdChar(c: char) {
    ('A' <= c <= 'Z') || ('a' <= c <= 'z') || ('0' <= c <= '9') || c == '+' || c == '/'
  }

  /** A character of the URL- and filename-safe alphabet (section 5 of RFC 4648). */
  predicate IsUrlChar(c: char) {
    ('A' <= c <= 'Z') || ('a' <= c <= 'z') || ('0' <= c <= '9') || c == '-' || c == '_'
  }

  /** The 6-bit value of a standard-alphabet character. */
  function StdValue(c: char): (v: nat)
    requires IsStdChar(c)
    ensures v < 64
  {
    if 'A' <= c <= 'Z' then c as int - 'A' as int
    else if 'a' <= c <= 'z' then c as int - 'a' as int + 26
    else if '0' <= c <= '9' then c as int - '0' as int + 52
    else if c == '+' then 62
    else 63
  }

  /** The URL-safe character of a 6-bit value. */
  function UrlChar(v: nat): (c: char)
    requires v < 64
    ensures IsUrlChar(c)
  {
    if v < 26 then ('A' as int + v) as char
    else if v < 52 then ('a' as int + v - 26) as char
    else if v < 62 then ('0' as int + v - 52) as char
    else if v == 62 then '-'
    else '_'
  }

  // ---------------------------------------------------------------------
  // Padding and substitution
  // ---------------------------------------------------------------------

  /** The number of `=` appended to a string of length `n`: `(4 - n % 4) % 4`. */
  function PaddingLength(n: nat): (p: nat)
    ensures p < 4 && (n + p) % 4 == 0
    ensures n % 4 == 0 ==> p == 0
  {
    (4 - n % 4) % 4
  }

  /** `s + '='.repeat(...)`: the input padded to a multiple of four. */
  function Pad(s: string): (r: string)
    ensures |r| == |s| + PaddingLength(|s|) && |r| % 4 == 0
    ensures r[..|s|] == s
    ensures forall i :: |s| <= i < |r| ==> r[i] == '='
    ensures |s| % 4 == 0 ==> r == s
  {
    s + seq(PaddingLength(|s|), _ => '=')
  }

  /** `s.replace(/x/g, y)` for a one-character pattern: every `from` becomes `to`. */
  function ReplaceAll(s: string, from: char, to: char): (r: string)
    ensures |r| == |s|
    ensures forall i :: 0 <= i < |s| ==> r[i] == if s[i] == from then to else s[i]
  {
    if s == [] then [] else [if s[0] == from then to else s[0]] + ReplaceAll(s[1..], from, to)
  }

  /** The standard-alphabet counterpart of one character: `-` to `+`, `_` to `/`, all others kept. */
  function ToStdChar(c: char): char {
    if c == '-' then '+' else if c == '_' then '/' else c
  }

  /** The two substitutions that turn the URL-safe alphabet into the standard one. */
  function UrlToStandard(s: string): (r: string)
    ensures |r| == |s|
    ensures forall i :: 0 <= i < |s| ==> r[i] == ToStdChar(s[i])
  {
    ReplaceAll(ReplaceAll(s, '-', '+'), '_', '/')
  }

  /** After substitution no `-` or `_` remains, and a URL-safe string is a standard one. */
  lemma UrlToStandardAlphabet(s: string)
    ensures forall i :: 0 <= i < |s| ==> UrlToStandard(s)[i] != '-' && UrlToStandard(s)[i] != '_'
    ensures (forall i :: 0 <= i < |s| ==> IsUrlChar(s[i])) ==>
      forall i :: 0 <= i < |s| ==> IsStdChar(UrlToStandard(s)[i])
  {
  }

  // ---------------------------------------------------------------------
  // atob
  // ---------------------------------------------------------------------

  /** ASCII whitespace: tab, line feed, form feed, carriage return and space. */
  predicate IsAsciiWhitespace(c: char) {
    c == '\t' || c == '\n' || c as int == 0x0C || c == '\r' || c == ' '
  }

  /** The input with all ASCII whitespace removed. */
  function StripWhitespace(s: string): (r: string)
    ensures |r| <= |s|
    ensures forall i :: 0 <= i < |r| ==> !IsAsciiWhitespace(r[i])
    ensures (forall i :: 0 <= i < |s| ==> !IsAsciiWhitespace(s[i])) ==> r == s
  {
    if s == [] then []
    else (if IsAsciiWhitespace(s[0]) then [] else [s[0]]) + StripWhitespace(s[1..])
  }

  /** Without its trailing one or two `=` when its length is a multiple of four. */
  function StripPadding(d: string): (r: string)
    ensures |d| % 4 == 0 && |d| >= 2 && d[|d| - 2..] == "==" ==> r == d[..|d| - 2]
    ensures |d| % 4 == 0 && |d| >= 1 && d[|d| - 1] == '=' && d[|d| - 2..] != "==" ==> r == d[..|d| - 1]
    ensures (|d| % 4 != 0 || |d| == 0 || d[|d| - 1] != '=') ==> r == d
  {
    if |d| % 4 == 0 && |d| >= 2 && d[|d| - 2..] == "==" then d[..|d| - 2]
    else if |d| % 4 == 0 && |d| >= 1 && d[|d| - 1] == '=' then d[..|d| - 1]
    else d
  }

  /** True when every character of `cs` is in the standard alphabet. */
  predicate AllStd(cs: string) {
    forall i :: 0 <= i < |cs| ==> IsStdChar(cs[i])
  }

  /** True when every number of `vs` fits in six bits. */
  predicate AllSextets(vs: seq<nat>) {
    forall i :: 0 <= i < |vs| ==> vs[i] < 64
  }

  /**
   * Two, three or four 6-bit values concatenated and cut into one, two or
   * three bytes; the leftover low bits are discarded.
   */
  function Octets(vs: seq<nat>): (r: seq<byte>)
    requires 2 <= |vs| <= 4 && AllSextets(vs)
    ensures |r| == |vs| - 1
  {
    var v2 := if |vs| >= 3 then vs[2] else 0;
    var v3 := if |vs| == 4 then vs[3] else 0;
    var bytes := [(vs[0] * 4 + vs[1] / 16) as byte, ((vs[1] % 16) * 16 + v2 / 4) as byte, ((v2 % 4) * 64 + v3) as byte];
    bytes[..|vs| - 1]
  }

  /** The 6-bit values of a run of standard characters. */
  function Values(cs: string): (vs: seq<nat>)
    requires AllStd(cs)
    ensures |vs| == |cs| && AllSextets(vs)
    ensures forall i :: 0 <= i < |cs| ==> vs[i] == StdValue(cs[i])
  {
    seq(|cs|, i requires 0 <= i < |cs| => StdValue(cs[i]))
  }

  /** The bytes of one group of two, three or four standard characters. */
  function GroupBytes(cs: string): (r: seq<byte>)
    requires 2 <= |cs| <= 4 && AllStd(cs)
    ensures |r| == |cs| - 1
  {
    Octets(Values(cs))
  }

  /** The bytes of a run of standard characters, group by group of four. */
  function DecodeQuads(cs: string): (r: seq<byte>)
    requires |cs| % 4 != 1 && AllStd(cs)
    decreases |cs|
  {
    if |cs| == 0 then []
    else if |cs| <= 4 then GroupBytes(cs)
    else GroupBytes(cs[..4]) + DecodeQuads(cs[4..])
  }

  /**
   * Forgiving-base64 decode: drop ASCII whitespace; when the length is a
   * multiple of four drop one or two trailing `=`; fail when the length leaves
   * remainder one or a character outside the standard alphabet remains;
   * otherwise decode.
   */
  function ForgivingBase64Decode(s: string): Option<seq<byte>> {
    var data := StripPadding(StripWhitespace(s));
    if |data| % 4 == 1 then None
    else if !AllStd(data) then None
    else Some(DecodeQuads(data))
  }

  /** The string of one character per byte, each character's code being the byte. */
  function BinaryString(bs: seq<byte>): (r: string)
    ensures |r| == |bs|
    ensures forall i :: 0 <= i < |bs| ==> r[i] as int == bs[i] as int
  {
    seq(|bs|, i requires 0 <= i < |bs| => bs[i] as int as char)
  }

  /** `atob`: the decoded binary string, or `None` where the browser throws. */
  function Atob(s: string): (r: Option<string>)
    ensures r.None? <==> ForgivingBase64Decode(s).None?
    ensures r.Some? ==> forall i :: 0 <= i < |r.value| ==> r.value[i] as int < 256
  {
    match ForgivingBase64Decode(s)
    case None => None
    case Some(bs) => Some(BinaryString(bs))
  }

  // ---------------------------------------------------------------------
  // urlBase64ToUint8Array
  // ---------------------------------------------------------------------

  /** Storing a number into a `Uint8Array` element keeps it modulo 256. */
  function ToUint8(x: int): (b: byte)
    ensures 0 <= x < 256 ==> b as int == x
  {
    (x % 256) as byte
  }

  /** The character codes of a binary string, one byte per character. */
  function CharCodes(raw: string): (r: seq<byte>)
    requires forall i :: 0 <= i < |raw| ==> raw[i] as int < 256
    ensures |r| == |raw|
    ensures forall i :: 0 <= i < |raw| ==> r[i] as int == raw[i] as int
  {
    seq(|raw|, i requires 0 <= i < |raw| => raw[i] as int as byte)
  }

  /** The bytes `urlBase64ToUint8Array` returns, or `None` where `atob` throws. */
  function UrlBase64ToBytes(base64String: string): (r: Option<seq<byte>>)
    ensures r.None? <==> Atob(UrlToStandard(Pad(base64String))).None?
    ensures r.Some? ==>
      var raw := Atob(UrlToStandard(Pad(base64String))).value;
      |r.value| == |raw| && forall i :: 0 <= i < |raw| ==> r.value[i] as int == raw[i] as int
  {
    match Atob(UrlToStandard(Pad(base64String)))
    case None => None
    case Some(raw) => Some(CharCodes(raw))
  }

  /** The loop of `urlBase64ToUint8Array`: a new array holding the code of each character, index by index. */
  method CopyCharCodes(raw: string) returns (outputArray: array<byte>)
    requires forall i :: 0 <= i < |raw| ==> raw[i] as int < 256
    ensures fresh(outputArray)
    ensures outputArray[..] == CharCodes(raw)
  {
    outputArray := new byte[|raw|];
    for i := 0 to |raw|
      invariant forall k :: 0 <= k < i ==> outputArray[k] as int == raw[k] as int
    {
      outputArray[i] := ToUint8(raw[i] as int);
    }
  }

  /** `urlBase64ToUint8Array`: pad, substitute, `atob`, then copy each character code into a new array. */
  method UrlBase64ToUint8Array(base64String: string) returns (output: Option<array<byte>>)
    ensures output.None? <==> UrlBase64ToBytes(base64String).None?
    ensures output.Some? ==> output.value[..] == UrlBase64ToBytes(base64String).value
    ensures output.Some? ==> fresh(output.value)
  {
    var base64 := UrlToStandard(Pad(base64String));
    var rawData := Atob(base64);
    if rawData.None? {
      return None;
    }
    var outputArray := CopyCharCodes(rawData.value);
    output := Some(outputArray);
  }

  // ---------------------------------------------------------------------
  // Encoding, the inverse
  // ---------------------------------------------------------------------

  /** One, two or three bytes cut into two, three or four 6-bit values, the last filled with zero bits. */
  function Sextets(g: seq<byte>): (vs: seq<nat>)
    requires 1 <= |g| <= 3
    ensures |vs| == |g| + 1 && AllSextets(vs)
  {
    var a := g[0] as int;
    var b := if |g| >= 2 then g[1] as int else 0;
    var c := if |g| == 3 then g[2] as int else 0;
    [a / 4, (a % 4) * 16 + b / 16, (b % 16) * 4 + c / 64, c % 64][..|g| + 1]
  }

  /** The two, three or four URL-safe characters of one group of one, two or three bytes. */
  function EncodeGroup(g: seq<byte>): (r: string)
    requires 1 <= |g| <= 3
    ensures |r| == |g| + 1
    ensures forall i :: 0 <= i < |r| ==> IsUrlChar(r[i])
  {
    var vs := Sextets(g);
    seq(|vs|, i requires 0 <= i < |vs| => UrlChar(vs[i]))
  }

  /**
   * Unpadded base64url encoding (section 5 of RFC 4648, padding omitted as
   * section 3.2 allows), the form in which a push-server key is published.
   */
  function Base64UrlEncode(bs: seq<byte>): (r: string)
    ensures |r| % 4 != 1
    ensures forall i :: 0 <= i < |r| ==> IsUrlChar(r[i])
  {
    if |bs| == 0 then ""
    else if |bs| <= 3 then EncodeGroup(bs)
    else EncodeGroup(bs[..3]) + Base64UrlEncode(bs[3..])
  }

  // ---------------------------------------------------------------------
  // Properties
  // ---------------------------------------------------------------------

  /** A URL-safe character of value `v` becomes, after substitution, the standard character of value `v`. */
  lemma CharRoundTrip(v: nat)
    requires v < 64
    ensures IsStdChar(ToStdChar(UrlChar(v))) && StdValue(ToStdChar(UrlChar(v))) == v
  {
  }

  /** The bit fields of two bytes split across three 6-bit values join back into the bytes. */
  lemma ByteFields(a: int, b: int, c: int)
    requires 0 <= a < 256 && 0 <= b < 256 && 0 <= c < 256
    ensures (a / 4) * 4 + ((a % 4) * 16 + b / 16) / 16 == a
    ensures (((a % 4) * 16 + b / 16) % 16) * 16 + ((b % 16) * 4 + c / 64) / 4 == b
    ensures (((b % 16) * 4 + c / 64) % 4) * 64 + c % 64 == c
  {
  }

  /** Joining the 6-bit values of a group gives back its bytes. */
  lemma OctetsOfSextets(g: seq<byte>)
    requires 1 <= |g| <= 3
    ensures Octets(Sextets(g)) == g
  {
    var a := g[0] as int;
    var b := if |g| >= 2 then g[1] as int else 0;
    var c := if |g| == 3 then g[2] as int else 0;
    ByteFields(a, b, c);
  }

  /** Decoding one substituted group gives back its bytes. */
  lemma DecodeGroup(g: seq<byte>)
    requires 1 <= |g| <= 3
    ensures var t := UrlToStandard(EncodeGroup(g)); AllStd(t) && GroupBytes(t) == g
  {
    var vs := Sextets(g);
    var t := UrlToStandard(EncodeGroup(g));
    forall i | 0 <= i < |t|
      ensures IsStdChar(t[i]) && StdValue(t[i]) == vs[i]
    {
      CharRoundTrip(vs[i]);
    }
    assert Values(t) == vs;
    OctetsOfSextets(g);
  }

  /** Decoding works group by group: a leading group of four characters decodes separately. */
  lemma DecodeQuadsAppend(x: string, y: string)
    requires |x| == 4 && |y| % 4 != 1 && AllStd(x) && AllStd(y)
    ensures AllStd(x + y) && DecodeQuads(x + y) == GroupBytes(x) + DecodeQuads(y)
  {
    var xy := x + y;
    assert xy[..4] == x && xy[4..] == y;
  }

  /** Substitution works character by character, so it distributes over concatenation. */
  lemma UrlToStandardAppend(x: string, y: string)
    ensures UrlToStandard(x + y) == UrlToStandard(x) + UrlToStandard(y)
  {
  }

  /** Decoding the substituted encoding gives back the bytes. */
  lemma {:induction false} DecodeEncoded(bs: seq<byte>)
    ensures var t := UrlToStandard(Base64UrlEncode(bs)); |t| % 4 != 1 && AllStd(t) && DecodeQuads(t) == bs
    decreases |bs|
  {
    var e := Base64UrlEncode(bs);
    UrlToStandardAlphabet(e);
    if |bs| == 0 {
    } else if |bs| <= 3 {
      DecodeGroup(bs);
    } else {
      var g, rest := EncodeGroup(bs[..3]), Base64UrlEncode(bs[3..]);
      DecodeGroup(bs[..3]);
      DecodeEncoded(bs[3..]);
      UrlToStandardAppend(g, rest);
      DecodeQuadsAppend(UrlToStandard(g), UrlToStandard(rest));
      assert bs == bs[..3] + bs[3..];
    }
  }

  /** Padding and substituting an encoding gives the substituted encoding followed by the padding. */
  lemma PaddedEncoding(e: string)
    ensures UrlToStandard(Pad(e)) == UrlToStandard(e) + seq(PaddingLength(|e|), _ => '=')
  {
  }

  /** Removing the padding of a padded run of standard characters gives the run back. */
  lemma StripPaddingOfPadded(t: string)
    requires |t| % 4 != 1 && AllStd(t)
    ensures StripPadding(t + seq(PaddingLength(|t|), _ => '=')) == t
  {
    var d := t + seq(PaddingLength(|t|), _ => '=');
    if PaddingLength(|t|) == 1 {
      assert d[|d| - 2] == t[|t| - 1];
      assert d[|d| - 2..] != "==";
    }
    if PaddingLength(|t|) == 2 {
      assert d[|d| - 2..] == "==";
    }
    assert d[..|t|] == t;
  }

  /** A padded run of standard characters passes `atob`'s checks and decodes group by group. */
  lemma PaddedDecodes(t: string)
    requires |t| % 4 != 1 && AllStd(t)
    ensures ForgivingBase64Decode(t + seq(PaddingLength(|t|), _ => '=')) == Some(DecodeQuads(t))
  {
    var d := t + seq(PaddingLength(|t|), _ => '=');
    assert forall i :: 0 <= i < |d| ==> !IsAsciiWhitespace(d[i]);
    assert StripWhitespace(d) == d;
    StripPaddingOfPadded(t);
  }

  /** A key published in unpadded base64url decodes to exactly its bytes. */
  lemma UrlBase64RoundTrip(bs: seq<byte>)
    ensures UrlBase64ToBytes(Base64UrlEncode(bs)) == Some(bs)
  {
    var e := Base64UrlEncode(bs);
    var t := UrlToStandard(e);
    DecodeEncoded(bs);
    PaddedEncoding(e);
    PaddedDecodes(t);
    assert Atob(UrlToStandard(Pad(e))) == Some(BinaryString(bs));
    assert CharCodes(BinaryString(bs)) == bs;
  }

  /** A whitespace-free input of length `4k + 1` is never a valid key: `atob` throws. */
  lemma LengthOneModFourFails(s: string)
    requires |s| % 4 == 1
    requires forall i :: 0 <= i < |s| ==> !IsAsciiWhitespace(s[i])
    ensures UrlBase64ToBytes(s) == None
  {
    var d := UrlToStandard(Pad(s));
    assert |d| == |s| + 3;
    assert StripWhitespace(d) == d;
    assert d[|d| - 2..] == "==";
    var data := StripPadding(d);
    assert data[|data| - 1] == '=' && !IsStdChar(data[|data| - 1]);
  }

  /** The standard group `+/8` holds the values 62, 63, 60 and decodes to the bytes 0xFB, 0xFF. */
  lemma ExampleGroup()
    ensures AllStd("+/8") && DecodeQuads("+/8") == [0xFB, 0xFF]
  {
    var t := "+/8";
    assert Values(t) == [62, 63, 60];
    assert Octets([62, 63, 60]) == [0xFB, 0xFF];
  }

  /** Padding and substituting `-_8` gives `+/8=`. */
  lemma ExamplePadded()
    ensures UrlToStandard(Pad("-_8")) == "+/8="
  {
    var padded := Pad("-_8");
    assert PaddingLength(3) == 1;
    assert padded[..3] == "-_8" && padded[3] == '=';
    assert padded == "-_8=";
    var t := UrlToStandard(padded);
    assert t[0] == '+' && t[1] == '/' && t[2] == '8' && t[3] == '=';
  }

  /** `atob("+/8=")` decodes the one group. */
  lemma ExampleDecoded()
    ensures ForgivingBase64Decode("+/8=") == Some([0xFB, 0xFF])
  {
    var t := "+/8=";
    assert StripWhitespace(t) == t;
    assert StripPadding(t) == "+/8";
    ExampleGroup();
  }

  /** The URL-safe characters are needed: `-_8` is a key of two bytes. */
  lemma UrlSafeExample()
    ensures UrlBase64ToBytes("-_8") == Some([0xFB, 0xFF])
  {
    ExamplePadded();
    ExampleDecoded();
    assert Atob("+/8=") == Some(BinaryString([0xFB, 0xFF]));
    assert CharCodes(BinaryString([0xFB, 0xFF])) == [0xFB, 0xFF];
  }

  /** `-_8=` is not standard base64: `atob` without the substitution throws. */
  lemma StandardRejectsUrlSafe()
    ensures ForgivingBase64Decode("-_8=") == None
  {
    var s := "-_8=";
    assert StripWhitespace(s) == s;
    assert StripPadding(s) == "-_8";
    assert !IsStdChar("-_8"[0]);
  }
}
