/** `encodeURIComponent` and `decodeURIComponent` (ECMAScript 5.1, sections
    15.1.3.4 and 15.1.3.2), the percent-encoding of section 2.1 of RFC 3986
    applied to the UTF-8 bytes of each character. Strings are sequences of
    Unicode scalar values, so the encoder never meets a lone surrogate and
    never throws; the decoder fails (`None`, a `URIError`) on a malformed
    escape or on bytes that are not the UTF-8 form of one scalar value. */
module UriCodec {
  import opened Wrappers

  /** The characters `encodeURIComponent` leaves as they are: letters, digits
      and `-_.!~*'()`. */
  predicate IsUnreserved(c: char) {
    ('A' <= c <= 'Z') || ('a' <= c <= 'z') || ('0' <= c <= '9')
    || c == '-' || c == '_' || c == '.' || c == '!' || c == '~' || c == '*'
    || c == '\'' || c == '(' || c == ')'
  }

  predicate IsByte(b: int) {
    0 <= b < 256
  }

  /** The upper-case hexadecimal digit of `d`. */
  function HexDigit(d: int): (c: char)
    requires 0 <= d < 16
    ensures IsUnreserved(c)
  {
    if d < 10 then ('0' as int + d) as char else ('A' as int + d - 10) as char
  }

  /** The value of a hexadecimal digit in either case. */
  function HexValue(c: char): (r: Option<int>)
    ensures r.Some? ==> 0 <= r.value < 16
  {
    if '0' <= c <= '9' then Some(c as int - '0' as int)
    else if 'A' <= c <= 'F' then Some(c as int - 'A' as int + 10)
    else if 'a' <= c <= 'f' then Some(c as int - 'a' as int + 10)
    else None
  }

  lemma HexRoundTrip(d: int)
    requires 0 <= d < 16
    ensures HexValue(HexDigit(d)) == Some(d)
  {
  }

  /** `%XX` for one byte. */
  function Escape(b: int): (r: string)
    requires IsByte(b)
    ensures |r| == 3 && r[0] == '%'
  {
    ['%', HexDigit(b / 16), HexDigit(b % 16)]
  }

  /** The escapes of a sequence of bytes, one after the other. */
  function EscapeAll(bs: seq<int>): (r: string)
    requires forall i :: 0 <= i < |bs| ==> IsByte(bs[i])
    ensures |r| == 3 * |bs|
  {
    if bs == [] then [] else Escape(bs[0]) + EscapeAll(bs[1..])
  }

  /** The UTF-8 bytes of a scalar value (RFC 3629, section 3; ECMAScript 5.1,
      table 21). `q0`, `q1`, `q2` are the value shifted right by 6, 12, 18
      bits. */
  function Utf8(c: char): (bs: seq<int>)
    ensures 1 <= |bs| <= 4
    ensures forall i :: 0 <= i < |bs| ==> IsByte(bs[i])
    ensures forall i :: 1 <= i < |bs| ==> 0x80 <= bs[i] < 0xC0
  {
    var cp := c as int;
    var q0 := cp / 64;
    var q1 := q0 / 64;
    var q2 := q1 / 64;
    if cp < 0x80 then [cp]
    else if cp < 0x800 then [0xC0 + q0, 0x80 + cp % 64]
    else if cp < 0x10000 then [0xE0 + q1, 0x80 + q0 % 64, 0x80 + cp % 64]
    else [0xF0 + q2, 0x80 + q1 % 64, 0x80 + q0 % 64, 0x80 + cp % 64]
  }

  /** What `encodeURIComponent` makes of one character. */
  function EncodeChar(c: char): string {
    if IsUnreserved(c) then [c] else EscapeAll(Utf8(c))
  }

  /** `encodeURIComponent(s)`. */
  function Encode(s: string): string {
    if s == [] then [] else EncodeChar(s[0]) + Encode(s[1..])
  }

  /** The byte written by the escape at the start of `s`, if it starts with
      one. */
  function ParseEscape(s: string): (r: Option<int>)
    ensures r.Some? ==> |s| >= 3 && s[0] == '%' && IsByte(r.value)
  {
    if |s| < 3 || s[0] != '%' then None
    else match (HexValue(s[1]), HexValue(s[2]))
      case (Some(hi), Some(lo)) => Some(hi * 16 + lo)
      case _ => None
  }

  /** `count` escapes of continuation bytes (`10xxxxxx`) at the start of `s`. */
  function ParseContinuations(s: string, count: nat): (r: Option<seq<int>>)
    ensures r.Some? ==> |s| >= 3 * count && |r.value| == count
    ensures r.Some? ==> forall i :: 0 <= i < count ==> 0x80 <= r.value[i] < 0xC0
  {
    if count == 0 then Some([])
    else match ParseEscape(s)
      case None => None
      case Some(b) =>
        if !(0x80 <= b < 0xC0) then None
        else match ParseContinuations(s[3..], count - 1)
          case None => None
          case Some(rest) => Some([b] + rest)
  }

  /** The length of the UTF-8 sequence a lead byte opens: the number of its
      leading one bits, or 0 when that number is 1 or more than 4. */
  function LeadLength(b: int): (n: nat)
    requires 0x80 <= b < 256
    ensures n == 0 || 2 <= n <= 4
  {
    if b < 0xC0 then 0 else if b < 0xE0 then 2 else if b < 0xF0 then 3 else if b < 0xF8 then 4 else 0
  }

  /** The payload bits of a lead byte of a sequence of `n` bytes. */
  function LeadPayload(b: int, n: nat): int
    requires 2 <= n <= 4
  {
    if n == 2 then b - 0xC0 else if n == 3 then b - 0xE0 else b - 0xF0
  }

  /** Appends the six payload bits of each continuation byte. */
  function Assemble(acc: int, conts: seq<int>): int
    decreases |conts|
  {
    if conts == [] then acc else Assemble(acc * 64 + (conts[0] - 0x80), conts[1..])
  }

  /** A value decoded from `n` bytes is a scalar value and is not written in
      more bytes than it needs. */
  predicate WellFormed(cp: int, n: nat) {
    if n == 2 then 0x80 <= cp < 0x800
    else if n == 3 then 0x800 <= cp < 0x10000 && !(0xD800 <= cp < 0xE000)
    else 0x10000 <= cp < 0x110000
  }

  function Prepend(c: char, r: Option<string>): Option<string> {
    match r
    case None => None
    case Some(t) => Some([c] + t)
  }

  /** `decodeURIComponent(s)`; `None` is a thrown `URIError`. */
  function Decode(s: string): Option<string>
    decreases |s|
  {
    if s == [] then Some([])
    else if s[0] != '%' then Prepend(s[0], Decode(s[1..]))
    else match ParseEscape(s)
      case None => None
      case Some(b) =>
        if b < 0x80 then Prepend(b as char, Decode(s[3..]))
        else
          var n := LeadLength(b);
          if n == 0 then None
          else match ParseContinuations(s[3..], n - 1)
            case None => None
            case Some(conts) =>
              var cp := Assemble(LeadPayload(b, n), conts);
              if !WellFormed(cp, n) then None
              else Prepend(cp as char, Decode(s[3 * n..]))
  }

  // ---------------------------------------------------------------------
  // The round trip

  lemma ParseEscapeOf(b: int, rest: string)
    requires IsByte(b)
    ensures ParseEscape(Escape(b) + rest) == Some(b)
  {
    HexRoundTrip(b / 16);
    HexRoundTrip(b % 16);
  }

  lemma {:induction false} ParseContinuationsOf(bs: seq<int>, rest: string)
    requires forall i :: 0 <= i < |bs| ==> 0x80 <= bs[i] < 0xC0
    ensures ParseContinuations(EscapeAll(bs) + rest, |bs|) == Some(bs)
  {
    if bs != [] {
      var tail := EscapeAll(bs[1..]) + rest;
      var s := EscapeAll(bs) + rest;
      assert s == Escape(bs[0]) + tail;
      ParseEscapeOf(bs[0], tail);
      assert ParseEscape(s) == Some(bs[0]);
      assert s[3..] == tail;
      ParseContinuationsOf(bs[1..], rest);
      assert ParseContinuations(s[3..], |bs| - 1) == Some(bs[1..]);
      assert [bs[0]] + bs[1..] == bs;
    }
  }

  /** Decoding the UTF-8 bytes of a character gives that character back. */
  lemma Utf8Decodes(c: char)
    requires |Utf8(c)| >= 2
    ensures var bs := Utf8(c);
      var n := |bs|;
      0x80 <= bs[0] && LeadLength(bs[0]) == n
      && Assemble(LeadPayload(bs[0], n), bs[1..]) == c as int
      && WellFormed(c as int, n)
  {
    var bs := Utf8(c);
    var cp := c as int;
    var q0 := cp / 64;
    var q1 := q0 / 64;
    var q2 := q1 / 64;
    assert cp == q0 * 64 + cp % 64;
    assert q0 == q1 * 64 + q0 % 64;
    assert q1 == q2 * 64 + q1 % 64;
    if cp < 0x800 {
      assert Assemble(LeadPayload(bs[0], 2), bs[1..]) == Assemble(q0 * 64 + cp % 64, []);
    } else if cp < 0x10000 {
      assert bs[1..] == [0x80 + q0 % 64, 0x80 + cp % 64];
      assert Assemble(q1, bs[1..]) == Assemble(q1 * 64 + q0 % 64, [0x80 + cp % 64]);
      assert Assemble(q0, [0x80 + cp % 64]) == Assemble(cp, []);
    } else {
      assert bs[1..] == [0x80 + q1 % 64, 0x80 + q0 % 64, 0x80 + cp % 64];
      assert Assemble(q2, bs[1..]) == Assemble(q1, [0x80 + q0 % 64, 0x80 + cp % 64]);
      assert Assemble(q1, [0x80 + q0 % 64, 0x80 + cp % 64]) == Assemble(q0, [0x80 + cp % 64]);
      assert Assemble(q0, [0x80 + cp % 64]) == Assemble(cp, []);
    }
  }

  /** The escapes of one character are decoded back to it, whatever follows. */
  lemma DecodeEncodeChar(c: char, rest: string)
    ensures Decode(EncodeChar(c) + rest) == Prepend(c, Decode(rest))
  {
    if IsUnreserved(c) {
      var s := EncodeChar(c) + rest;
      assert s[0] == c && s[1..] == rest;
    } else if c as int < 0x80 {
      DecodeAsciiEscape(c, rest);
    } else {
      DecodeMultiByte(c, rest);
    }
  }

  lemma DecodeAsciiEscape(c: char, rest: string)
    requires c as int < 0x80
    ensures Decode(EscapeAll(Utf8(c)) + rest) == Prepend(c, Decode(rest))
  {
    var b := c as int;
    assert Utf8(c) == [b];
    var s := EscapeAll(Utf8(c)) + rest;
    assert s == Escape(b) + rest;
    ParseEscapeOf(b, rest);
    assert s[3..] == rest;
    assert (b as char) == c;
  }

  lemma DecodeMultiByte(c: char, rest: string)
    requires c as int >= 0x80
    ensures Decode(EscapeAll(Utf8(c)) + rest) == Prepend(c, Decode(rest))
  {
    var bs := Utf8(c);
    var n := |bs|;
    var tail := EscapeAll(bs[1..]) + rest;
    var s := EscapeAll(bs) + rest;
    assert s == Escape(bs[0]) + tail;
    ParseEscapeOf(bs[0], tail);
    assert ParseEscape(s) == Some(bs[0]);
    Utf8Decodes(c);
    assert s[3..] == tail;
    ParseContinuationsOf(bs[1..], rest);
    assert ParseContinuations(s[3..], n - 1) == Some(bs[1..]);
    assert s[3 * n..] == rest;
    assert (c as int) as char == c;
  }

  /** `decodeURIComponent(encodeURIComponent(s)) === s` for every string. */
  lemma {:induction false} DecodeEncode(s: string)
    ensures Decode(Encode(s)) == Some(s)
  {
    if s != [] {
      DecodeEncodeChar(s[0], Encode(s[1..]));
      DecodeEncode(s[1..]);
      assert [s[0]] + s[1..] == s;
    }
  }

  /** What `encodeURIComponent` writes is made of unreserved characters and
      `%`: in particular no `#`, `?`, `&`, `=` and no line terminator. */
  lemma {:induction false} EncodeAlphabet(s: string)
    ensures forall i :: 0 <= i < |Encode(s)| ==> IsUnreserved(Encode(s)[i]) || Encode(s)[i] == '%'
  {
    if s != [] {
      EncodeAlphabet(s[1..]);
      EscapeAllAlphabet(if IsUnreserved(s[0]) then [] else Utf8(s[0]));
    }
  }

  lemma {:induction false} EscapeAllAlphabet(bs: seq<int>)
    requires forall i :: 0 <= i < |bs| ==> IsByte(bs[i])
    ensures forall i :: 0 <= i < |EscapeAll(bs)| ==> IsUnreserved(EscapeAll(bs)[i]) || EscapeAll(bs)[i] == '%'
  {
    if bs != [] {
      EscapeAllAlphabet(bs[1..]);
    }
  }

  /** The encoding of a concatenation is the concatenation of the encodings. */
  lemma {:induction false} EncodeAppend(a: string, b: string)
    ensures Encode(a + b) == Encode(a) + Encode(b)
  {
    if a != [] {
      assert (a + b)[1..] == a[1..] + b;
      EncodeAppend(a[1..], b);
    } else {
      assert a + b == b;
    }
  }

  /** Text made of unreserved characters is encoded as itself. */
  lemma {:induction false} EncodeUnreservedText(s: string)
    requires forall i :: 0 <= i < |s| ==> IsUnreserved(s[i])
    ensures Encode(s) == s
  {
    if s != [] {
      EncodeUnreservedText(s[1..]);
    }
  }

  /** The separators of a URL are escaped. */
  lemma EncodeSeparators()
    ensures Encode(":") == "%3A"
    ensures Encode("/") == "%2F"
  {
    assert Encode(":") == EncodeChar(':') + Encode([]);
    assert Encode("/") == EncodeChar('/') + Encode([]);
  }

  /** The encoding of `scheme://host/path` when the three parts are made of
      unreserved characters: only the separators are escaped. */
  lemma EncodeSimpleUrl(scheme: string, host: string, path: string)
    requires forall i :: 0 <= i < |scheme| ==> IsUnreserved(scheme[i])
    requires forall i :: 0 <= i < |host| ==> IsUnreserved(host[i])
    requires forall i :: 0 <= i < |path| ==> IsUnreserved(path[i])
    ensures Encode(scheme + (":" + ("/" + ("/" + (host + ("/" + path))))))
      == scheme + ("%3A" + ("%2F" + ("%2F" + (host + ("%2F" + path)))))
  {
    EncodeSeparators();
    EncodeUnreservedText(scheme);
    EncodeUnreservedText(host);
    EncodeUnreservedText(path);
    var t1 := "/" + path;
    EncodeAppend("/", path);
    var t2 := host + t1;
    EncodeAppend(host, t1);
    var t3 := "/" + t2;
    EncodeAppend("/", t2);
    var t4 := "/" + t3;
    EncodeAppend("/", t3);
    var t5 := ":" + t4;
    EncodeAppend(":", t4);
    EncodeAppend(scheme, t5);
  }

  /** Text without `%` decodes to itself. */
  lemma {:induction false} DecodeWithoutEscapes(s: string)
    requires '%' !in s
    ensures Decode(s) == Some(s)
  {
    if s != [] {
      assert s[0] in s;
      assert forall c :: c in s[1..] ==> c in s;
      DecodeWithoutEscapes(s[1..]);
      assert [s[0]] + s[1..] == s;
    }
  }
}
