/** JavaScript's decodeURIComponent: every `%XX` escape is a byte, runs of
    bytes are read as UTF-8, and a malformed escape or byte sequence throws a
    URIError.  A decoded character is one Unicode scalar value (the surrogate
    pair JavaScript makes for code points above U+FFFF is one char here). */
module UriDecode {
  import opened Strings

  const UriErrorMessage := "URIError: URI malformed"

  predicate IsHexDigit(c: char)
  {
    '0' <= c <= '9' || 'a' <= c <= 'f' || 'A' <= c <= 'F'
  }

  function HexValue(c: char): (v: nat)
    requires IsHexDigit(c)
    ensures v < 16
  {
    if '0' <= c <= '9' then c as int - '0' as int
    else if 'a' <= c <= 'f' then c as int - 'a' as int + 10
    else c as int - 'A' as int + 10
  }

  /** The byte of a `%XX` escape at the start of `s`. */
  function EscapedByte(s: string): (r: Option<nat>)
    ensures r.Some? ==> |s| >= 3 && r.value < 256
  {
    if |s| >= 3 && s[0] == '%' && IsHexDigit(s[1]) && IsHexDigit(s[2])
    then Some(16 * HexValue(s[1]) + HexValue(s[2]))
    else None
  }

  /** The bytes of `n` escapes in a row at the start of `s`. */
  function EscapedBytes(s: string, n: nat): (r: Option<seq<nat>>)
    ensures r.Some? ==> |r.value| == n && |s| >= 3 * n
    ensures r.Some? ==> forall i :: 0 <= i < n ==> r.value[i] < 256
    decreases n
  {
    if n == 0 then Some([])
    else
      match EscapedByte(s)
      case None => None
      case Some(b) =>
        match EscapedBytes(s[3..], n - 1)
        case None => None
        case Some(bs) => Some([b] + bs)
  }

  /** How many bytes a UTF-8 sequence starting with `b` takes: the number of
      leading one bits, 1 for ASCII, and 0 (an error) for a continuation byte
      or for five or more leading ones. */
  function SequenceLength(b: nat): nat
  {
    if b < 0x80 then 1
    else if b < 0xC0 then 0
    else if b < 0xE0 then 2
    else if b < 0xF0 then 3
    else if b < 0xF8 then 4
    else 0
  }

  predicate IsContinuation(b: nat)
  {
    0x80 <= b < 0xC0
  }

  /** The character a UTF-8 sequence encodes, or None when it is not the
      shortest encoding of a Unicode scalar value (an overlong form, a
      surrogate, or a value above U+10FFFF). */
  function Utf8Decode(bytes: seq<nat>): Option<char>
    requires 1 <= |bytes| <= 4
  {
    if !forall i :: 1 <= i < |bytes| ==> IsContinuation(bytes[i]) then None
    else
      var cp :=
        if |bytes| == 1 then bytes[0]
        else if |bytes| == 2 then (bytes[0] % 32) * 64 + bytes[1] % 64
        else if |bytes| == 3 then (bytes[0] % 16) * 4096 + (bytes[1] % 64) * 64 + bytes[2] % 64
        else (bytes[0] % 8) * 262144 + (bytes[1] % 64) * 4096 + (bytes[2] % 64) * 64 + bytes[3] % 64;
      var least :=
        if |bytes| == 1 then 0 else if |bytes| == 2 then 0x80 else if |bytes| == 3 then 0x800 else 0x10000;
      if cp < least || cp > 0x10FFFF || 0xD800 <= cp < 0xE000 then None
      else Some(cp as char)
  }

  function Prepend(p: string, r: Result<string>): Result<string>
  {
    match r
    case Ok(v) => Ok(p + v)
    case Err(e) => Err(e)
  }

  /** decodeURIComponent: every failure is the same URIError, and each
      decoded character comes from at least one input character. */
  function Decode(s: string): (r: Result<string>)
    ensures r.Err? ==> r.message == UriErrorMessage
    ensures r.Ok? ==> |r.value| <= |s|
    decreases |s|
  {
    if s == [] then Ok([])
    else if s[0] != '%' then Prepend([s[0]], Decode(s[1..]))
    else
      match EscapedByte(s)
      case None => Err(UriErrorMessage)
      case Some(b) =>
        var n := SequenceLength(b);
        if n == 0 then Err(UriErrorMessage)
        else
          match EscapedBytes(s, n)
          case None => Err(UriErrorMessage)
          case Some(bytes) =>
            match Utf8Decode(bytes)
            case None => Err(UriErrorMessage)
            case Some(c) => Prepend([c], Decode(s[3 * n..]))
  }

  /** Text before the first `%` is copied as it is. */
  lemma {:induction false} DecodePlainPrefix(a: string, b: string)
    requires '%' !in a
    ensures Decode(a + b) == Prepend(a, Decode(b))
  {
    if a == [] {
      assert a + b == b;
      match Decode(b) {
        case Ok(v) => assert a + v == v;
        case Err(_) =>
      }
    } else {
      assert (a + b)[0] == a[0];
      assert (a + b)[1..] == a[1..] + b;
      DecodePlainPrefix(a[1..], b);
      match Decode(b) {
        case Ok(v) => assert [a[0]] + (a[1..] + v) == a + v;
        case Err(_) =>
      }
    }
  }

  /** A string without `%` decodes to itself. */
  lemma DecodeWithoutPercent(s: string)
    requires '%' !in s
    ensures Decode(s) == Ok(s)
  {
    DecodePlainPrefix(s, []);
    assert s + [] == s;
  }

  /** When decoding succeeds, every `%` of the input starts a `%XX` escape:
      a `%` without two hex digits after it makes decoding fail. */
  lemma {:induction false} DecodedEscapesAreWellFormed(s: string)
    requires Decode(s).Ok?
    ensures forall i :: 0 <= i < |s| && s[i] == '%' ==> i + 2 < |s| && IsHexDigit(s[i + 1]) && IsHexDigit(s[i + 2])
    decreases |s|
  {
    if s != [] {
      if s[0] != '%' {
        DecodedEscapesAreWellFormed(s[1..]);
        forall i | 0 < i < |s| && s[i] == '%'
          ensures i + 2 < |s| && IsHexDigit(s[i + 1]) && IsHexDigit(s[i + 2])
        {
          assert s[1..][i - 1] == s[i];
        }
      } else {
        var b := EscapedByte(s).value;
        var n := SequenceLength(b);
        var rest := s[3 * n..];
        DecodedEscapesAreWellFormed(rest);
        EscapeRunIsWellFormed(s, n);
        forall i | 0 <= i < |s| && s[i] == '%'
          ensures i + 2 < |s| && IsHexDigit(s[i + 1]) && IsHexDigit(s[i + 2])
        {
          if i >= 3 * n {
            assert rest[i - 3 * n] == s[i];
            assert rest[i - 3 * n + 1] == s[i + 1] && rest[i - 3 * n + 2] == s[i + 2];
          } else {
            assert i % 3 == 0;
            assert (i + 1) % 3 == 1 && (i + 2) % 3 == 2 && i + 2 < 3 * n;
          }
        }
      }
    }
  }

  /** A run of `n` escapes is `%`, hex digit, hex digit, `n` times over. */
  lemma {:induction false} EscapeRunIsWellFormed(s: string, n: nat)
    requires EscapedBytes(s, n).Some?
    ensures |s| >= 3 * n
    ensures forall i :: 0 <= i < 3 * n ==> if i % 3 == 0 then s[i] == '%' else IsHexDigit(s[i])
    decreases n
  {
    if n > 0 {
      var rest := s[3..];
      EscapeRunIsWellFormed(rest, n - 1);
      forall i | 3 <= i < 3 * n
        ensures if i % 3 == 0 then s[i] == '%' else IsHexDigit(s[i])
      {
        assert rest[i - 3] == s[i];
      }
    }
  }

  /** The characters encodeURIComponent leaves as they are. */
  predicate IsUnreserved(c: char)
  {
    'A' <= c <= 'Z' || 'a' <= c <= 'z' || '0' <= c <= '9' || c in "-_.!~*'()"
  }

  function HexDigitChar(d: nat): (c: char)
    requires d < 16
    ensures IsHexDigit(c) && HexValue(c) == d
  {
    if d < 10 then (d + '0' as int) as char else (d - 10 + 'A' as int) as char
  }

  predicate AreBytes(bytes: seq<nat>)
  {
    forall i :: 0 <= i < |bytes| ==> bytes[i] < 256
  }

  /** Each byte as a `%XX` escape with upper-case hex digits. */
  function EscapeBytes(bytes: seq<nat>): (r: string)
    requires AreBytes(bytes)
    ensures |r| == 3 * |bytes|
  {
    if bytes == [] then []
    else ['%', HexDigitChar(bytes[0] / 16), HexDigitChar(bytes[0] % 16)] + EscapeBytes(bytes[1..])
  }

  /** The UTF-8 encoding of a character. */
  function Utf8Encode(c: char): (bytes: seq<nat>)
    ensures 1 <= |bytes| <= 4 && AreBytes(bytes)
    ensures SequenceLength(bytes[0]) == |bytes|
  {
    var cp := c as int;
    if cp < 0x80 then [cp]
    else if cp < 0x800 then [0xC0 + cp / 64, 0x80 + cp % 64]
    else if cp < 0x10000 then [0xE0 + cp / 4096, 0x80 + cp / 64 % 64, 0x80 + cp % 64]
    else [0xF0 + cp / 262144, 0x80 + cp / 4096 % 64, 0x80 + cp / 64 % 64, 0x80 + cp % 64]
  }

  /** encodeURIComponent: every character outside the unreserved set becomes
      the escapes of its UTF-8 bytes. */
  function Encode(s: string): (r: string)
    ensures |r| >= |s|
  {
    if s == [] then []
    else (if IsUnreserved(s[0]) then [s[0]] else EscapeBytes(Utf8Encode(s[0]))) + Encode(s[1..])
  }

  /** Reading back the escapes of some bytes gives those bytes. */
  lemma {:induction false} EscapeBytesRead(bytes: seq<nat>, rest: string)
    requires AreBytes(bytes)
    ensures EscapedBytes(EscapeBytes(bytes) + rest, |bytes|) == Some(bytes)
    ensures (EscapeBytes(bytes) + rest)[3 * |bytes|..] == rest
  {
    if bytes != [] {
      var t := EscapeBytes(bytes) + rest;
      var b := bytes[0];
      assert t[..3] == ['%', HexDigitChar(b / 16), HexDigitChar(b % 16)];
      assert EscapedByte(t) == Some(b);
      assert t[3..] == EscapeBytes(bytes[1..]) + rest;
      EscapeBytesRead(bytes[1..], rest);
      assert [b] + bytes[1..] == bytes;
    }
  }

  /** The code point of a character, rebuilt from the payload bits of its
      UTF-8 bytes. */
  lemma TwoBytePayload(cp: nat)
    requires 0x80 <= cp < 0x800
    ensures ((0xC0 + cp / 64) % 32) * 64 + (0x80 + cp % 64) % 64 == cp
  {
    assert (0xC0 + cp / 64) % 32 == cp / 64;
    assert (0x80 + cp % 64) % 64 == cp % 64;
  }

  lemma ThreeBytePayload(cp: nat)
    requires 0x800 <= cp < 0x10000
    ensures ((0xE0 + cp / 4096) % 16) * 4096 + ((0x80 + cp / 64 % 64) % 64) * 64 + (0x80 + cp % 64) % 64 == cp
  {
    assert (0xE0 + cp / 4096) % 16 == cp / 4096;
    assert (0x80 + cp / 64 % 64) % 64 == cp / 64 % 64;
    assert (0x80 + cp % 64) % 64 == cp % 64;
    assert cp / 64 == cp / 4096 * 64 + cp / 64 % 64;
  }

  lemma FourBytePayload(cp: nat)
    requires 0x10000 <= cp < 0x110000
    ensures ((0xF0 + cp / 262144) % 8) * 262144 + ((0x80 + cp / 4096 % 64) % 64) * 4096 +
            ((0x80 + cp / 64 % 64) % 64) * 64 + (0x80 + cp % 64) % 64 == cp
  {
    assert (0xF0 + cp / 262144) % 8 == cp / 262144;
    assert (0x80 + cp / 4096 % 64) % 64 == cp / 4096 % 64;
    assert (0x80 + cp / 64 % 64) % 64 == cp / 64 % 64;
    assert (0x80 + cp % 64) % 64 == cp % 64;
    assert cp / 4096 == cp / 262144 * 64 + cp / 4096 % 64;
    assert cp / 64 == cp / 4096 * 64 + cp / 64 % 64;
  }

  /** UTF-8 decoding undoes UTF-8 encoding. */
  lemma Utf8RoundTrip(c: char)
    ensures Utf8Decode(Utf8Encode(c)) == Some(c)
  {
    var cp := c as int;
    if 0x80 <= cp < 0x800 {
      TwoBytePayload(cp);
    } else if 0x800 <= cp < 0x10000 {
      ThreeBytePayload(cp);
    } else if 0x10000 <= cp {
      FourBytePayload(cp);
    }
  }

  /** A run of escapes as long as its first byte announces is decoded as
      one UTF-8 sequence: one character, or the URIError. */
  lemma DecodeEscapeRun(bytes: seq<nat>, rest: string)
    requires AreBytes(bytes) && 1 <= |bytes| <= 4 && SequenceLength(bytes[0]) == |bytes|
    ensures Decode(EscapeBytes(bytes) + rest) ==
      match Utf8Decode(bytes)
      case None => Err(UriErrorMessage)
      case Some(c) => Prepend([c], Decode(rest))
  {
    var t := EscapeBytes(bytes) + rest;
    EscapeBytesRead(bytes, rest);
    EscapeBytesRead([bytes[0]], []);
    assert t[..3] == EscapeBytes([bytes[0]]);
    assert EscapedByte(t) == Some(bytes[0]);
  }

  /** One encoded character decodes back to that character. */
  lemma DecodeEncodedChar(c: char, rest: string)
    ensures Decode(EscapeBytes(Utf8Encode(c)) + rest) == Prepend([c], Decode(rest))
  {
    DecodeEscapeRun(Utf8Encode(c), rest);
    Utf8RoundTrip(c);
  }

  /** decodeURIComponent undoes encodeURIComponent. */
  lemma {:induction false} DecodeEncode(s: string)
    ensures Decode(Encode(s)) == Ok(s)
  {
    if s != [] {
      DecodeEncode(s[1..]);
      var head := if IsUnreserved(s[0]) then [s[0]] else EscapeBytes(Utf8Encode(s[0]));
      if IsUnreserved(s[0]) {
        DecodePlainPrefix(head, Encode(s[1..]));
      } else {
        DecodeEncodedChar(s[0], Encode(s[1..]));
      }
      assert [s[0]] + s[1..] == s;
    }
  }

  /** `%20` decodes to a space. */
  lemma DecodeEscapedSpace(rest: string)
    ensures Decode("%20" + rest) == Prepend(" ", Decode(rest))
  {
    DecodeEncodedChar(' ', rest);
    assert EscapeBytes(Utf8Encode(' ')) == "%20";
  }

  /** A word without `%`, an escaped space, and a decodable rest. */
  lemma DecodeWordThenSpace(w: string, rest: string, decoded: string)
    requires '%' !in w && Decode(rest) == Ok(decoded)
    ensures Decode(w + "%20" + rest) == Ok(w + " " + decoded)
  {
    DecodeEscapedSpace(rest);
    DecodePlainPrefix(w, "%20" + rest);
    assert w + "%20" + rest == w + ("%20" + rest);
    assert w + (" " + decoded) == w + " " + decoded;
  }

  /** A `%` at the end of the input is malformed. */
  lemma TrailingPercentFails()
    ensures Decode("%").Err?
  {
  }

  /** `%C0%80`, an overlong two-byte form of U+0000, is refused. */
  lemma OverlongFormFails()
    ensures Decode("%C0%80").Err?
  {
    assert EscapeBytes([0xC0, 0x80]) + "" == "%C0%80";
    DecodeEscapeRun([0xC0, 0x80], "");
  }

  /** `%ED%A0%80` encodes the surrogate U+D800 and is refused. */
  lemma SurrogateFails()
    ensures Decode("%ED%A0%80").Err?
  {
    assert EscapeBytes([0xED, 0xA0, 0x80]) + "" == "%ED%A0%80";
    DecodeEscapeRun([0xED, 0xA0, 0x80], "");
  }

  /** `%E2%82%AC` is the three UTF-8 bytes of the euro sign. */
  lemma EuroSign()
    ensures Decode("%E2%82%AC") == Ok("\U{20AC}")
  {
    assert Utf8Encode('\U{20AC}') == [0xE2, 0x82, 0xAC];
    assert EscapeBytes([0xE2, 0x82, 0xAC]) == "%E2%82%AC";
    DecodeEncodedChar('\U{20AC}', "");
    assert "%E2%82%AC" + "" == "%E2%82%AC";
    assert Decode("") == Ok("");
    assert ['\U{20AC}'] + "" == "\U{20AC}";
  }
}
