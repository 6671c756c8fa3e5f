/** The two WebAuthn helpers that carry bytes as base64url text (section 5 of
    RFC 4648) on top of the browser's btoa and atob (section 4, and the
    forgiving decode of the HTML standard). */
module Base64Url {
  import opened MachineWords
  import opened Options

  type sextet = v: nat | v < 64

  // ----- three bytes as four sextets

  function Sextet0(a: byte): sextet { a / 4 }
  function Sextet1(a: byte, b: byte): sextet { a % 4 * 16 + b / 16 }
  function Sextet2(b: byte, c: byte): sextet { b % 16 * 4 + c / 64 }
  function Sextet3(c: byte): sextet { c % 64 }

  function Byte0(v0: sextet, v1: sextet): byte { v0 * 4 + v1 / 16 }
  function Byte1(v1: sextet, v2: sextet): byte { v1 % 16 * 16 + v2 / 4 }
  function Byte2(v2: sextet, v3: sextet): byte { v2 % 4 * 64 + v3 }

  function Sextets(b: seq<byte>): seq<sextet>
  {
    if b == [] then []
    else if |b| == 1 then [Sextet0(b[0]), Sextet1(b[0], 0)]
    else if |b| == 2 then [Sextet0(b[0]), Sextet1(b[0], b[1]), Sextet2(b[1], 0)]
    else [Sextet0(b[0]), Sextet1(b[0], b[1]), Sextet2(b[1], b[2]), Sextet3(b[2])] + Sextets(b[3..])
  }

  /** The bytes the sextets spell; bits left over at the end are dropped. */
  function Bytes(v: seq<sextet>): seq<byte> {
    if |v| < 2 then []
    else if |v| == 2 then [Byte0(v[0], v[1])]
    else if |v| == 3 then [Byte0(v[0], v[1]), Byte1(v[1], v[2])]
    else [Byte0(v[0], v[1]), Byte1(v[1], v[2]), Byte2(v[2], v[3])] + Bytes(v[4..])
  }

  /** The sextets end with a byte, and no bits are set beyond it. */
  predicate WholeBytes(v: seq<sextet>) {
    if |v| >= 4 then WholeBytes(v[4..])
    else |v| == 0 || (|v| == 2 && v[1] % 16 == 0) || (|v| == 3 && v[2] % 4 == 0)
  }

  lemma {:induction false} WholeLength(v: seq<sextet>)
    requires WholeBytes(v)
    ensures |v| % 4 != 1
  {
    if |v| >= 4 {
      WholeLength(v[4..]);
    }
  }

  lemma GroupToBytes(a: byte, b: byte, c: byte)
    ensures Byte0(Sextet0(a), Sextet1(a, b)) == a
    ensures Byte1(Sextet1(a, b), Sextet2(b, c)) == b
    ensures Byte2(Sextet2(b, c), Sextet3(c)) == c
  {
  }

  lemma GroupToSextets(v0: sextet, v1: sextet, v2: sextet, v3: sextet)
    ensures Sextet0(Byte0(v0, v1)) == v0
    ensures Sextet1(Byte0(v0, v1), Byte1(v1, v2)) == v1
    ensures Sextet2(Byte1(v1, v2), Byte2(v2, v3)) == v2
    ensures Sextet3(Byte2(v2, v3)) == v3
  {
  }

  lemma BytesOfGroup(v0: sextet, v1: sextet, v2: sextet, v3: sextet, rest: seq<sextet>)
    ensures Bytes([v0, v1, v2, v3] + rest) == [Byte0(v0, v1), Byte1(v1, v2), Byte2(v2, v3)] + Bytes(rest)
    ensures WholeBytes(rest) ==> WholeBytes([v0, v1, v2, v3] + rest)
  {
    assert ([v0, v1, v2, v3] + rest)[4..] == rest;
  }

  lemma SextetsOfGroup(a: byte, b: byte, c: byte, rest: seq<byte>)
    ensures Sextets([a, b, c] + rest) == [Sextet0(a), Sextet1(a, b), Sextet2(b, c), Sextet3(c)] + Sextets(rest)
  {
    assert ([a, b, c] + rest)[3..] == rest;
  }

  lemma BytesOfSextetsStep(a: byte, b: byte, c: byte, rest: seq<byte>)
    requires WholeBytes(Sextets(rest)) && Bytes(Sextets(rest)) == rest
    ensures WholeBytes(Sextets([a, b, c] + rest)) && Bytes(Sextets([a, b, c] + rest)) == [a, b, c] + rest
  {
    SextetsOfGroup(a, b, c, rest);
    BytesOfGroup(Sextet0(a), Sextet1(a, b), Sextet2(b, c), Sextet3(c), Sextets(rest));
    GroupToBytes(a, b, c);
  }

  lemma TailBits(a: byte, b: byte)
    ensures Sextet1(a, 0) % 16 == 0 && Sextet2(b, 0) % 4 == 0
  {
  }

  lemma FirstByte(a: byte, b: byte)
    ensures Byte0(Sextet0(a), Sextet1(a, b)) == a
  {
  }

  lemma TwoSextets(v0: sextet, v1: sextet)
    ensures Bytes([v0, v1]) == [Byte0(v0, v1)]
    ensures WholeBytes([v0, v1]) <==> v1 % 16 == 0
  {
  }

  lemma OneByte(a: byte)
    ensures WholeBytes(Sextets([a])) && Bytes(Sextets([a])) == [a]
  {
    FirstByte(a, 0);
    TailBits(a, 0);
    TwoSextets(Sextet0(a), Sextet1(a, 0));
  }

  lemma TwoBytes(a: byte, b: byte)
    ensures WholeBytes(Sextets([a, b])) && Bytes(Sextets([a, b])) == [a, b]
  {
    GroupToBytes(a, b, 0);
    TailBits(a, b);
    assert Sextets([a, b]) == [Sextet0(a), Sextet1(a, b), Sextet2(b, 0)];
  }

  lemma {:induction false} BytesOfSextets(b: seq<byte>)
    ensures WholeBytes(Sextets(b)) && Bytes(Sextets(b)) == b
  {
    if |b| == 1 {
      OneByte(b[0]);
      assert b == [b[0]];
    } else if |b| == 2 {
      TwoBytes(b[0], b[1]);
      assert b == [b[0], b[1]];
    } else if |b| >= 3 {
      BytesOfSextets(b[3..]);
      BytesOfSextetsStep(b[0], b[1], b[2], b[3..]);
      assert b == [b[0], b[1], b[2]] + b[3..];
    }
  }

  lemma SextetsOfBytesStep(v0: sextet, v1: sextet, v2: sextet, v3: sextet, rest: seq<sextet>)
    requires Sextets(Bytes(rest)) == rest
    ensures Sextets(Bytes([v0, v1, v2, v3] + rest)) == [v0, v1, v2, v3] + rest
  {
    BytesOfGroup(v0, v1, v2, v3, rest);
    SextetsOfGroup(Byte0(v0, v1), Byte1(v1, v2), Byte2(v2, v3), Bytes(rest));
    GroupToSextets(v0, v1, v2, v3);
  }

  lemma ShortSextetsOfBytes(v: seq<sextet>)
    requires WholeBytes(v) && |v| < 4
    ensures Sextets(Bytes(v)) == v
  {
    if |v| == 2 {
      FirstSextets(v[0], v[1]);
    } else if |v| == 3 {
      GroupToSextets(v[0], v[1], v[2], 0);
    }
  }

  lemma FirstSextets(v0: sextet, v1: sextet)
    requires v1 % 16 == 0
    ensures Sextet0(Byte0(v0, v1)) == v0 && Sextet1(Byte0(v0, v1), 0) == v1
  {
  }

  lemma {:induction false} SextetsOfBytes(v: seq<sextet>)
    requires WholeBytes(v)
    ensures Sextets(Bytes(v)) == v
  {
    if |v| < 4 {
      ShortSextetsOfBytes(v);
    } else {
      SextetsOfBytes(v[4..]);
      SextetsOfBytesStep(v[0], v[1], v[2], v[3], v[4..]);
      assert v == [v[0], v[1], v[2], v[3]] + v[4..];
    }
  }

  // ----- sextets as characters

  /** The standard alphabet, section 4 of RFC 4648. */
  function CharOf(v: sextet): (c: char)
    ensures ValueOf(c) == Some(v)
  {
    if v < 26 then (v + 65) as char        // A-Z
    else if v < 52 then (v + 71) as char   // a-z
    else if v < 62 then (v - 4) as char    // 0-9
    else if v == 62 then '+' else '/'
  }

  function ValueOf(c: char): Option<sextet> {
    if 'A' <= c <= 'Z' then Some(c as int - 65)
    else if 'a' <= c <= 'z' then Some(c as int - 71)
    else if '0' <= c <= '9' then Some(c as int + 4)
    else if c == '+' then Some(62) else if c == '/' then Some(63) else None
  }

  predicate IsBase64(s: string) {
    forall i :: 0 <= i < |s| ==> ValueOf(s[i]).Some?
  }

  function Chars(v: seq<sextet>): (s: string)
    ensures IsBase64(s) && |s| == |v|
  {
    seq(|v|, i requires 0 <= i < |v| => CharOf(v[i]))
  }

  function Values(s: string): seq<sextet>
    requires IsBase64(s)
  {
    seq(|s|, i requires 0 <= i < |s| => ValueOf(s[i]).value)
  }

  // ----- btoa and atob, on strings of characters below 256

  predicate IsBinary(s: string) {
    forall i :: 0 <= i < |s| ==> s[i] as int < 256
  }

  function Codes(bin: string): seq<byte>
    requires IsBinary(bin)
  {
    seq(|bin|, i requires 0 <= i < |bin| => bin[i] as int)
  }

  function Latin1(bytes: seq<byte>): (bin: string)
    ensures IsBinary(bin) && |bin| == |bytes|
  {
    seq(|bytes|, i requires 0 <= i < |bytes| => bytes[i] as char)
  }

  /** What btoa appends after the digits of `n` bytes. */
  function Padding(n: nat): string {
    if n % 3 == 0 then "" else if n % 3 == 1 then "==" else "="
  }

  function Btoa(bin: string): string
    requires IsBinary(bin)
  {
    Chars(Sextets(Codes(bin))) + Padding(|bin|)
  }

  predicate IsSpace(c: char) {
    c in "\t\n\U{000C}\r "
  }

  function WithoutSpaces(s: string): string {
    if s == [] then [] else (if IsSpace(s[0]) then [] else [s[0]]) + WithoutSpaces(s[1..])
  }

  /** Up to two padding characters may close a text whose length is a multiple of four. */
  function WithoutPadding(s: string): string {
    if s == [] || |s| % 4 != 0 || s[|s| - 1] != '=' then s
    else if s[|s| - 2] == '=' then s[..|s| - 2] else s[..|s| - 1]
  }

  /** Forgiving base64; None is the error the browser throws. */
  function Atob(text: string): (bin: Option<string>)
    ensures bin.Some? ==> IsBinary(bin.value)
  {
    var s := WithoutPadding(WithoutSpaces(text));
    if |s| % 4 == 1 || !IsBase64(s) then None else Some(Latin1(Bytes(Values(s))))
  }

  // ----- the two helpers

  function Replace(s: string, from: char, to: char): (r: string)
    ensures |r| == |s|
    ensures forall i :: 0 <= i < |s| ==> r[i] == if s[i] == from then to else s[i]
  {
    seq(|s|, i requires 0 <= i < |s| => if s[i] == from then to else s[i])
  }

  function UrlSafe(s: string): string {
    Replace(Replace(s, '+', '-'), '/', '_')
  }

  function Standard(text: string): string {
    Replace(Replace(text, '-', '+'), '_', '/')
  }

  function StripPadding(s: string): string {
    if s != [] && s[|s| - 1] == '=' then StripPadding(s[..|s| - 1]) else s
  }

  /** What b64urlToBuf puts back on `n` characters. */
  function Repadding(n: nat): string {
    if n % 4 == 0 then "" else seq(4 - n % 4, _ => '=')
  }

  function ToText(bytes: seq<byte>): string {
    StripPadding(UrlSafe(Btoa(Latin1(bytes))))
  }

  function FromText(text: string): Option<seq<byte>> {
    var b64 := Standard(text);
    match Atob(b64 + Repadding(|b64|))
    case None => None
    case Some(bin) => Some(Codes(bin))
  }

  method BufToB64url(bytes: array<byte>) returns (text: string)
    ensures text == ToText(bytes[..])
  {
    var bin := "";
    for i := 0 to bytes.Length
      invariant bin == Latin1(bytes[..i])
    {
      bin := bin + [bytes[i] as char];
    }
    assert bytes[..bytes.Length] == bytes[..];
    text := StripPadding(UrlSafe(Btoa(bin)));
  }

  method B64urlToBuf(text: string) returns (buf: Option<array<byte>>)
    ensures buf.None? <==> FromText(text).None?
    ensures buf.Some? ==> fresh(buf.value) && buf.value[..] == FromText(text).value
  {
    var b64 := Standard(text);
    var bin := Atob(b64 + Repadding(|b64|));
    if bin.None? {
      return None;
    }
    var bytes := CharCodes(bin.value);
    buf := Some(bytes);
  }

  method CharCodes(bin: string) returns (buf: array<byte>)
    requires IsBinary(bin)
    ensures fresh(buf) && buf[..] == Codes(bin)
  {
    buf := new byte[|bin|];
    for i := 0 to |bin|
      invariant forall j :: 0 <= j < i ==> buf[j] == bin[j] as int
    {
      buf[i] := bin[i] as int;
    }
  }

  // ----- what they promise

  lemma {:induction false} StripStops(s: string, pad: string)
    requires s == [] || s[|s| - 1] != '='
    requires forall i :: 0 <= i < |pad| ==> pad[i] == '='
    ensures StripPadding(s + pad) == s
    decreases |pad|
  {
    if pad == [] {
      assert s + pad == s;
    } else {
      assert (s + pad)[..|s + pad| - 1] == s + pad[..|pad| - 1];
      StripStops(s, pad[..|pad| - 1]);
    }
  }

  lemma LatinRoundTrip(bytes: seq<byte>)
    ensures Codes(Latin1(bytes)) == bytes
  {
  }

  lemma CharsRoundTrip(v: seq<sextet>)
    ensures Values(Chars(v)) == v
  {
  }

  lemma ValuesRoundTrip(s: string)
    requires IsBase64(s)
    ensures Chars(Values(s)) == s
  {
    forall i | 0 <= i < |s| ensures Chars(Values(s))[i] == s[i] {
      assert ValueOf(s[i]).Some?;
    }
  }

  /** All padding is gone: the text is the digits in the URL-safe alphabet. */
  lemma TextIsUrlSafeDigits(bytes: seq<byte>)
    ensures ToText(bytes) == UrlSafe(Chars(Sextets(bytes)))
  {
    LatinRoundTrip(bytes);
    var digits, pad := Chars(Sextets(bytes)), Padding(|bytes|);
    assert UrlSafe(digits + pad) == UrlSafe(digits) + pad;
    assert digits != [] ==> ValueOf(digits[|digits| - 1]).Some?;
    StripStops(UrlSafe(digits), pad);
  }

  lemma StandardUndoesUrlSafe(s: string)
    requires IsBase64(s)
    ensures Standard(UrlSafe(s)) == s
  {
    forall i | 0 <= i < |s| ensures Standard(UrlSafe(s))[i] == s[i] {
      assert ValueOf(s[i]).Some?;
    }
  }

  lemma {:induction false} NoSpacesToDrop(s: string)
    requires forall i :: 0 <= i < |s| ==> ValueOf(s[i]).Some? || s[i] == '='
    ensures WithoutSpaces(s) == s
  {
    if s != [] {
      NoSpacesToDrop(s[1..]);
      DigitIsNoSpace(s[0]);
    }
  }

  lemma DigitIsNoSpace(c: char)
    requires ValueOf(c).Some? || c == '='
    ensures !IsSpace(c)
  {
  }

  /** The padding put back on a text of possible length is what atob takes off again. */
  lemma RepaddingIsRemoved(s: string)
    requires IsBase64(s) && |s| % 4 != 1
    ensures WithoutPadding(s + Repadding(|s|)) == s
  {
    var padded := s + Repadding(|s|);
    if |s| % 4 == 0 {
      assert s != [] ==> ValueOf(s[|s| - 1]).Some?;
    } else {
      assert |padded| % 4 == 0 && padded[..|s|] == s;
      assert ValueOf(s[|s| - 1]).Some?;
    }
  }

  lemma FromTextOfDigits(s: string)
    requires IsBase64(s) && |s| % 4 != 1
    ensures FromText(UrlSafe(s)) == Some(Bytes(Values(s)))
  {
    StandardUndoesUrlSafe(s);
    NoSpacesToDrop(s + Repadding(|s|));
    RepaddingIsRemoved(s);
    LatinRoundTrip(Bytes(Values(s)));
  }

  /** Every byte sequence survives the trip through text. */
  lemma RoundTrip(bytes: seq<byte>)
    ensures FromText(ToText(bytes)) == Some(bytes)
  {
    TextIsUrlSafeDigits(bytes);
    BytesOfSextets(bytes);
    WholeLength(Sextets(bytes));
    CharsRoundTrip(Sextets(bytes));
    FromTextOfDigits(Chars(Sextets(bytes)));
  }

  predicate IsUrlDigit(c: char) {
    c == '-' || c == '_' || (c != '+' && c != '/' && ValueOf(c).Some?)
  }

  /** Section 5 alphabet only, no padding, no impossible length, and no bits
      set beyond the last whole byte. */
  predicate Canonical(text: string) {
    && (forall i :: 0 <= i < |text| ==> IsUrlDigit(text[i]))
    && IsBase64(Standard(text))
    && WholeBytes(Values(Standard(text)))
  }

  lemma TextIsCanonical(bytes: seq<byte>)
    ensures Canonical(ToText(bytes))
  {
    TextIsUrlSafeDigits(bytes);
    BytesOfSextets(bytes);
    var digits := Chars(Sextets(bytes));
    forall i | 0 <= i < |digits| ensures IsUrlDigit(UrlSafe(digits)[i]) {
      assert ValueOf(digits[i]).Some?;
    }
    StandardUndoesUrlSafe(digits);
    CharsRoundTrip(Sextets(bytes));
  }

  lemma CanonicalSurvives(text: string)
    requires Canonical(text)
    ensures FromText(text).Some? && ToText(FromText(text).value) == text
  {
    var s := Standard(text);
    forall i | 0 <= i < |text| ensures UrlSafe(s)[i] == text[i] {
      assert IsUrlDigit(text[i]);
    }
    assert UrlSafe(s) == text;
    WholeLength(Values(s));
    FromTextOfDigits(s);
    SextetsOfBytes(Values(s));
    ValuesRoundTrip(s);
    TextIsUrlSafeDigits(Bytes(Values(s)));
  }

  /** The texts produced are exactly the canonical ones: decoding and encoding a
      text gives the same text back if and only if it is canonical, so two
      different canonical texts never stand for the same bytes. */
  lemma TextRoundTripExactly(text: string)
    ensures Canonical(text) <==> FromText(text).Some? && ToText(FromText(text).value) == text
  {
    if Canonical(text) {
      CanonicalSurvives(text);
    }
    if FromText(text).Some? {
      TextIsCanonical(FromText(text).value);
    }
  }

  // ----- the text by the numbers

  function FourDigits(v0: int, v1: int, v2: int, v3: int): int {
    v0 * 262144 + v1 * 4096 + v2 * 64 + v3
  }

  function ThreeBytes(a: int, b: int, c: int): int {
    a * 65536 + b * 256 + c
  }

  /** The digits carry the bytes' bits, six at a time: four digits spell the number three
      bytes spell, and a byte or two left over are followed by zero bits. */
  ghost predicate SameBits(v: seq<sextet>, b: seq<byte>) {
    if b == [] then v == []
    else if |b| == 1 then |v| == 2 && FourDigits(v[0], v[1], 0, 0) == ThreeBytes(b[0], 0, 0)
    else if |b| == 2 then |v| == 3 && FourDigits(v[0], v[1], v[2], 0) == ThreeBytes(b[0], b[1], 0)
    else
      && |v| >= 4 && FourDigits(v[0], v[1], v[2], v[3]) == ThreeBytes(b[0], b[1], b[2])
      && SameBits(v[4..], b[3..])
  }

  lemma GroupBits(a: byte, b: byte, c: byte)
    ensures FourDigits(Sextet0(a), Sextet1(a, b), Sextet2(b, c), Sextet3(c)) == ThreeBytes(a, b, c)
  {
  }

  lemma {:induction false} SextetsSpellBytes(b: seq<byte>)
    ensures SameBits(Sextets(b), b)
    decreases |b|
  {
    if |b| == 1 {
      GroupBits(b[0], 0, 0);
    } else if |b| == 2 {
      GroupBits(b[0], b[1], 0);
    } else if |b| >= 3 {
      GroupBits(b[0], b[1], b[2]);
      SextetsSpellBytes(b[3..]);
      assert Sextets(b)[4..] == Sextets(b[3..]);
    }
  }

  /** The URL-safe alphabet, section 5 of RFC 4648. */
  lemma TextDigit(bytes: seq<byte>, i: nat)
    requires i < |Sextets(bytes)|
    ensures |ToText(bytes)| == |Sextets(bytes)|
    ensures var (c, v) := (ToText(bytes)[i], Sextets(bytes)[i]);
            if v < 26 then c as int == 'A' as int + v
            else if v < 52 then c as int == 'a' as int + (v - 26)
            else if v < 62 then c as int == '0' as int + (v - 52)
            else if v == 62 then c == '-' else c == '_'
  {
    TextIsUrlSafeDigits(bytes);
  }
}
