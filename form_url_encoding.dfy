/** The `application/x-www-form-urlencoded` serializer that `URLSearchParams`
    uses for its string form (section 5.2 of the WHATWG URL Standard), and a
    parser for its output. A name or value is UTF-8 encoded; ASCII letters,
    digits and `*-._` stay as they are, a space becomes `+`, and every other
    byte becomes `%` and two upper-case hex digits. Pairs are written
    `name=value` and joined with `&`.

    `FormDecodeEncode` and `ParseSerialize` prove that the parser recovers
    exactly what was serialized. */
module FormUrlEncoding {
  import opened Common

  type Byte = b: int | 0 <= b < 256

  // ---------------------------------------------------------------------
  // UTF-8
  // ---------------------------------------------------------------------

  /** A Unicode scalar value: a code point that is not a surrogate. */
  predicate IsScalar(n: int) {
    0 <= n < 0xD800 || 0xE000 <= n < 0x11_0000
  }

  predicate IsContinuation(b: Byte) {
    0x80 <= b < 0xC0
  }

  /** The UTF-8 encoding of one character. */
  function Utf8(c: char): (bs: seq<Byte>)
    ensures 1 <= |bs| <= 4
    ensures |bs| == 1 <==> c as int < 0x80
    ensures |bs| == 1 ==> bs[0] == c as int
  {
    var n := c as int;
    if n < 0x80 then [n]
    else if n < 0x800 then [0xC0 + n / 64, 0x80 + n % 64]
    else if n < 0x1_0000 then [0xE0 + n / 4096, 0x80 + (n / 64) % 64, 0x80 + n % 64]
    else [0xF0 + n / 262144, 0x80 + (n / 4096) % 64, 0x80 + (n / 64) % 64, 0x80 + n % 64]
  }

  /** The UTF-8 encoding of a string. */
  function Utf8Encode(s: string): (bs: seq<Byte>)
    ensures |s| <= |bs| <= 4 * |s|
  {
    if s == [] then [] else Utf8(s[0]) + Utf8Encode(s[1..])
  }

  /** Prepends a decoded character to a decoded rest. */
  function Prepend(n: int, rest: Option<string>): Option<string> {
    if IsScalar(n) && rest.Some? then Some([n as char] + rest.value) else None
  }

  /** Decodes well-formed UTF-8 (the lead byte gives the length, followed by
      continuation bytes); None for anything else. */
  function Utf8Decode(bs: seq<Byte>): Option<string>
    decreases |bs|
  {
    if bs == [] then Some([])
    else if bs[0] < 0x80 then Prepend(bs[0], Utf8Decode(bs[1..]))
    else if 0xC0 <= bs[0] < 0xE0 && |bs| >= 2 && IsContinuation(bs[1]) then
      Prepend((bs[0] as int - 0xC0) * 64 + (bs[1] as int - 0x80), Utf8Decode(bs[2..]))
    else if 0xE0 <= bs[0] < 0xF0 && |bs| >= 3 && IsContinuation(bs[1]) && IsContinuation(bs[2]) then
      Prepend((bs[0] as int - 0xE0) * 4096 + (bs[1] as int - 0x80) * 64 + (bs[2] as int - 0x80), Utf8Decode(bs[3..]))
    else if 0xF0 <= bs[0] < 0xF8 && |bs| >= 4 && IsContinuation(bs[1]) && IsContinuation(bs[2]) && IsContinuation(bs[3]) then
      Prepend((bs[0] as int - 0xF0) * 262144 + (bs[1] as int - 0x80) * 4096 + (bs[2] as int - 0x80) * 64 + (bs[3] as int - 0x80), Utf8Decode(bs[4..]))
    else None
  }

  lemma Utf8Decode2(b0: Byte, b1: Byte, rest: seq<Byte>)
    requires 0xC0 <= b0 < 0xE0 && IsContinuation(b1)
    ensures Utf8Decode([b0, b1] + rest) == Prepend((b0 - 0xC0) * 64 + (b1 - 0x80), Utf8Decode(rest))
  {
    assert ([b0, b1] + rest)[2..] == rest;
  }

  lemma Utf8Decode3(b0: Byte, b1: Byte, b2: Byte, rest: seq<Byte>)
    requires 0xE0 <= b0 < 0xF0 && IsContinuation(b1) && IsContinuation(b2)
    ensures Utf8Decode([b0, b1, b2] + rest) ==
      Prepend((b0 - 0xE0) * 4096 + (b1 - 0x80) * 64 + (b2 - 0x80), Utf8Decode(rest))
  {
    assert ([b0, b1, b2] + rest)[3..] == rest;
  }

  lemma Utf8Decode4(b0: Byte, b1: Byte, b2: Byte, b3: Byte, rest: seq<Byte>)
    requires 0xF0 <= b0 < 0xF8 && IsContinuation(b1) && IsContinuation(b2) && IsContinuation(b3)
    ensures Utf8Decode([b0, b1, b2, b3] + rest) ==
      Prepend((b0 - 0xF0) * 262144 + (b1 - 0x80) * 4096 + (b2 - 0x80) * 64 + (b3 - 0x80), Utf8Decode(rest))
  {
    assert ([b0, b1, b2, b3] + rest)[4..] == rest;
  }

  /** Cutting `n` into 6-bit groups and putting them back together gives `n`. */
  lemma SixBitGroups(n: nat)
    ensures n == (n / 64) * 64 + n % 64
    ensures n / 64 == (n / 4096) * 64 + (n / 64) % 64
    ensures n / 4096 == (n / 262144) * 64 + (n / 4096) % 64
  {
  }

  /** Decoding the encoding of one character gives that character back. */
  lemma Utf8DecodeChar(c: char, rest: seq<Byte>)
    ensures Utf8Decode(Utf8(c) + rest) == Prepend(c as int, Utf8Decode(rest))
  {
    var n := c as int;
    SixBitGroups(n);
    if n < 0x80 {
      assert (Utf8(c) + rest)[1..] == rest;
    } else if n < 0x800 {
      Utf8Decode2(0xC0 + n / 64, 0x80 + n % 64, rest);
    } else if n < 0x1_0000 {
      Utf8Decode3(0xE0 + n / 4096, 0x80 + (n / 64) % 64, 0x80 + n % 64, rest);
    } else {
      Utf8Decode4(0xF0 + n / 262144, 0x80 + (n / 4096) % 64, 0x80 + (n / 64) % 64, 0x80 + n % 64, rest);
    }
  }

  /** UTF-8 decoding inverts UTF-8 encoding. */
  lemma {:induction false} Utf8DecodeEncode(s: string)
    ensures Utf8Decode(Utf8Encode(s)) == Some(s)
  {
    if s != [] {
      Utf8DecodeEncode(s[1..]);
      Utf8DecodeChar(s[0], Utf8Encode(s[1..]));
      assert [s[0]] + s[1..] == s;
    }
  }

  // ---------------------------------------------------------------------
  // Percent-encoding
  // ---------------------------------------------------------------------

  /** The upper-case hex digit for `d`. */
  function HexDigit(d: int): (c: char)
    requires 0 <= d < 16
    ensures HexValue(c) == Some(d)
    ensures Unreserved(c)
  {
    if d < 10 then ('0' as int + d) as char else ('A' as int + d - 10) as char
  }

  /** The characters written as themselves. */
  predicate Unreserved(c: char) {
    ('a' <= c <= 'z') || ('A' <= c <= 'Z') || ('0' <= c <= '9') || c == '*' || c == '-' || c == '.' || c == '_'
  }

  /** The value of a hex digit, either case. */
  function HexValue(c: char): (v: Option<int>)
    ensures v.Some? ==> 0 <= v.value < 16
  {
    if '0' <= c <= '9' then Some(c as int - '0' as int)
    else if 'A' <= c <= 'F' then Some(c as int - 'A' as int + 10)
    else if 'a' <= c <= 'f' then Some(c as int - 'a' as int + 10)
    else None
  }

  /** `%` and two hex digits for each byte. */
  function PercentBytes(bs: seq<Byte>): (s: string)
    ensures |s| == 3 * |bs|
  {
    if bs == [] then "" else ['%', HexDigit(bs[0] / 16), HexDigit(bs[0] % 16)] + PercentBytes(bs[1..])
  }

  /** The encoding of one character. */
  function EncodeChar(c: char): string {
    if c == ' ' then "+"
    else if Unreserved(c) then [c]
    else PercentBytes(Utf8(c))
  }

  /** The encoding of a name or a value. */
  function FormEncode(s: string): string {
    if s == [] then "" else EncodeChar(s[0]) + FormEncode(s[1..])
  }

  /** Reads an encoded name or value back into bytes: `+` is a space, `%XY`
      the byte XY, an ASCII character its own byte; None for anything else. */
  function PercentDecode(s: string): Option<seq<Byte>>
    decreases |s|
  {
    if s == [] then Some([])
    else
      var head: Option<(Byte, nat)> :=
        if s[0] == '+' then Some((0x20, 1))
        else if s[0] == '%' then
          (if |s| >= 3 && HexValue(s[1]).Some? && HexValue(s[2]).Some?
           then Some((HexValue(s[1]).value * 16 + HexValue(s[2]).value, 3)) else None)
        else if (s[0] as int) < 0x80 then Some((s[0] as int, 1))
        else None;
      if head.None? then None
      else
        var rest := PercentDecode(s[head.value.1..]);
        if rest.None? then None else Some([head.value.0] + rest.value)
  }

  /** Decodes a name or a value. */
  function FormDecode(s: string): Option<string> {
    var bs := PercentDecode(s);
    if bs.None? then None else Utf8Decode(bs.value)
  }

  lemma {:induction false} PercentDecodeBytes(bs: seq<Byte>, rest: string)
    ensures PercentDecode(PercentBytes(bs) + rest) ==
      (if PercentDecode(rest).None? then None else Some(bs + PercentDecode(rest).value))
  {
    if bs == [] {
      assert PercentBytes(bs) + rest == rest;
      if PercentDecode(rest).Some? {
        assert bs + PercentDecode(rest).value == PercentDecode(rest).value;
      }
    } else {
      var s := PercentBytes(bs) + rest;
      assert s[3..] == PercentBytes(bs[1..]) + rest;
      assert s[0] == '%' && s[1] == HexDigit(bs[0] / 16) && s[2] == HexDigit(bs[0] % 16);
      assert HexValue(s[1]).value * 16 + HexValue(s[2]).value == bs[0];
      assert PercentDecode(s) ==
        (if PercentDecode(s[3..]).None? then None else Some([bs[0]] + PercentDecode(s[3..]).value));
      PercentDecodeBytes(bs[1..], rest);
      if PercentDecode(rest).Some? {
        assert [bs[0]] + (bs[1..] + PercentDecode(rest).value) == bs + PercentDecode(rest).value;
      }
    }
  }

  lemma PercentDecodeChar(c: char, rest: string)
    ensures PercentDecode(EncodeChar(c) + rest) ==
      (if PercentDecode(rest).None? then None else Some(Utf8(c) + PercentDecode(rest).value))
  {
    var s := EncodeChar(c) + rest;
    if c == ' ' || Unreserved(c) {
      assert s[1..] == rest;
    } else {
      PercentDecodeBytes(Utf8(c), rest);
    }
  }

  /** Percent-decoding an encoded string gives its UTF-8 bytes. */
  lemma {:induction false} PercentDecodeEncode(s: string)
    ensures PercentDecode(FormEncode(s)) == Some(Utf8Encode(s))
  {
    if s != [] {
      PercentDecodeEncode(s[1..]);
      PercentDecodeChar(s[0], FormEncode(s[1..]));
    }
  }

  /** Decoding inverts encoding. */
  lemma FormDecodeEncode(s: string)
    ensures FormDecode(FormEncode(s)) == Some(s)
  {
    PercentDecodeEncode(s);
    Utf8DecodeEncode(s);
  }

  /** An encoded string holds only unreserved characters, `%` and `+`: never
      the `&` and `=` that delimit pairs. */
  lemma {:induction false} FormEncodeAlphabet(s: string)
    ensures forall i :: 0 <= i < |FormEncode(s)| ==>
      Unreserved(FormEncode(s)[i]) || FormEncode(s)[i] == '%' || FormEncode(s)[i] == '+'
  {
    if s != [] {
      FormEncodeAlphabet(s[1..]);
      PercentBytesAlphabet(Utf8(s[0]));
    }
  }

  lemma {:induction false} PercentBytesAlphabet(bs: seq<Byte>)
    ensures forall i :: 0 <= i < |PercentBytes(bs)| ==> Unreserved(PercentBytes(bs)[i]) || PercentBytes(bs)[i] == '%'
  {
    if bs != [] {
      PercentBytesAlphabet(bs[1..]);
    }
  }

  // ---------------------------------------------------------------------
  // Pairs
  // ---------------------------------------------------------------------

  /** `pieces` joined with `sep` between them. */
  function Join(pieces: seq<string>, sep: char): string {
    if pieces == [] then ""
    else if |pieces| == 1 then pieces[0]
    else pieces[0] + [sep] + Join(pieces[1..], sep)
  }

  /** `s` cut at every `sep`. */
  function Split(s: string, sep: char): (pieces: seq<string>)
    ensures |pieces| >= 1
    decreases |s|
  {
    if s == [] then [""]
    else if s[0] == sep then [""] + Split(s[1..], sep)
    else
      var rest := Split(s[1..], sep);
      [[s[0]] + rest[0]] + rest[1..]
  }

  lemma {:induction false} SplitPrefix(p: string, t: string, sep: char)
    requires sep !in p
    ensures Split(p + t, sep) == [p + Split(t, sep)[0]] + Split(t, sep)[1..]
  {
    if p == [] {
      assert p + t == t;
      assert p + Split(t, sep)[0] == Split(t, sep)[0];
      assert [Split(t, sep)[0]] + Split(t, sep)[1..] == Split(t, sep);
    } else {
      assert p[0] in p;
      assert sep !in p[1..] by {
        forall k | 0 <= k < |p[1..]| ensures p[1..][k] != sep {
          assert p[1..][k] == p[k + 1];
        }
      }
      SplitPrefix(p[1..], t, sep);
      assert (p + t)[0] == p[0] && (p + t)[1..] == p[1..] + t;
      var rest := Split(p[1..] + t, sep);
      assert Split(p + t, sep) == [[p[0]] + rest[0]] + rest[1..];
      assert [p[0]] + (p[1..] + Split(t, sep)[0]) == p + Split(t, sep)[0];
    }
  }

  /** Splitting undoes joining when no piece holds the separator. */
  lemma {:induction false} SplitJoin(pieces: seq<string>, sep: char)
    requires |pieces| >= 1
    requires forall i :: 0 <= i < |pieces| ==> sep !in pieces[i]
    ensures Split(Join(pieces, sep), sep) == pieces
  {
    if |pieces| == 1 {
      SplitPrefix(pieces[0], "", sep);
      assert pieces[0] + "" == pieces[0];
    } else {
      SplitJoin(pieces[1..], sep);
      var t := [sep] + Join(pieces[1..], sep);
      SplitPrefix(pieces[0], t, sep);
      assert t[0] == sep && t[1..] == Join(pieces[1..], sep);
      assert Split(t, sep) == [""] + pieces[1..];
      assert pieces[0] + "" == pieces[0];
      assert pieces[0] + t == Join(pieces, sep);
      assert [pieces[0]] + pieces[1..] == pieces;
    }
  }

  /** One serialized pair. */
  function SerializePair(p: (string, string)): string {
    FormEncode(p.0) + "=" + FormEncode(p.1)
  }

  function SerializedPairs(pairs: seq<(string, string)>): (pieces: seq<string>)
    ensures |pieces| == |pairs|
    ensures forall i :: 0 <= i < |pairs| ==> pieces[i] == SerializePair(pairs[i])
  {
    if pairs == [] then [] else [SerializePair(pairs[0])] + SerializedPairs(pairs[1..])
  }

  /** The string form of a `URLSearchParams`. */
  function Serialize(pairs: seq<(string, string)>): string {
    Join(SerializedPairs(pairs), '&')
  }

  /** Reads one `name=value` piece, cutting at its first `=`; a piece without
      `=` is a name with the empty value. */
  function ParsePair(piece: string): Option<(string, string)> {
    var parts := Split(piece, '=');
    var name := FormDecode(parts[0]);
    var value := FormDecode(Join(parts[1..], '='));
    if name.None? || value.None? then None else Some((name.value, value.value))
  }

  function ParsePieces(pieces: seq<string>): (r: Option<seq<(string, string)>>)
    ensures r.Some? ==> |r.value| <= |pieces|
  {
    if pieces == [] then Some([])
    else if pieces[0] == "" then ParsePieces(pieces[1..])
    else
      var head := ParsePair(pieces[0]);
      var rest := ParsePieces(pieces[1..]);
      if head.None? || rest.None? then None else Some([head.value] + rest.value)
  }

  /** Parses a query string: split at `&`, drop empty pieces, read each pair. */
  function Parse(query: string): Option<seq<(string, string)>> {
    ParsePieces(Split(query, '&'))
  }

  /** An encoded string contains neither delimiter. */
  lemma NoDelimiters(s: string)
    ensures '&' !in FormEncode(s) && '=' !in FormEncode(s)
  {
    FormEncodeAlphabet(s);
  }

  lemma ParseSerializePair(p: (string, string))
    ensures SerializePair(p) != ""
    ensures '&' !in SerializePair(p)
    ensures ParsePair(SerializePair(p)) == Some(p)
  {
    NoDelimiters(p.0);
    NoDelimiters(p.1);
    var piece := SerializePair(p);
    assert piece == Join([FormEncode(p.0), FormEncode(p.1)], '=');
    SplitJoin([FormEncode(p.0), FormEncode(p.1)], '=');
    assert piece[|FormEncode(p.0)|] == '=';
    FormDecodeEncode(p.0);
    FormDecodeEncode(p.1);
  }

  lemma {:induction false} ParsePiecesSerialized(pairs: seq<(string, string)>)
    ensures ParsePieces(SerializedPairs(pairs)) == Some(pairs)
  {
    if pairs != [] {
      ParseSerializePair(pairs[0]);
      ParsePiecesSerialized(pairs[1..]);
      assert SerializedPairs(pairs)[1..] == SerializedPairs(pairs[1..]);
      assert [pairs[0]] + pairs[1..] == pairs;
    }
  }

  /** Parsing the string form gives back exactly the pairs, in order. */
  lemma ParseSerialize(pairs: seq<(string, string)>)
    ensures Parse(Serialize(pairs)) == Some(pairs)
  {
    var pieces := SerializedPairs(pairs);
    if pairs == [] {
      assert Split("", '&') == [""];
    } else {
      forall i | 0 <= i < |pieces| ensures '&' !in pieces[i] {
        ParseSerializePair(pairs[i]);
      }
      SplitJoin(pieces, '&');
      ParsePiecesSerialized(pairs);
    }
  }
}
