/**
 The page cursors of the Zerion provider (src/datasources/balances-api/zerion-balances-api.service.ts):
 the decimal offset between double quotes, in the base64 encoding of section 4 of RFC 4648.
 */
module ZerionCursor {
  import opened Prelude
  import opened Decimal

  // ---- base64 ----

  type sextet = n: int | 0 <= n < 64

  function ToChar(v: sextet): (c: char) {
    if v < 26 then ('A' as int + v) as char
    else if v < 52 then ('a' as int + v - 26) as char
    else if v < 62 then ('0' as int + v - 52) as char
    else if v == 62 then '+'
    else '/'
  }

  /** The value of a character; the decoder also takes the URL-safe alphabet. */
  function FromChar(c: char): Option<sextet> {
    if 'A' <= c <= 'Z' then Some(c as int - 'A' as int)
    else if 'a' <= c <= 'z' then Some(c as int - 'a' as int + 26)
    else if '0' <= c <= '9' then Some(c as int - '0' as int + 52)
    else if c == '+' || c == '-' then Some(62)
    else if c == '/' || c == '_' then Some(63)
    else None
  }

  /** Three bytes make four sextets; one or two bytes left over make two or three. */
  function Sextets(b: Bytes): seq<sextet> {
    if b == [] then []
    else if |b| == 1 then [b[0] / 4, b[0] % 4 * 16]
    else if |b| == 2 then [b[0] / 4, b[0] % 4 * 16 + b[1] / 16, b[1] % 16 * 4]
    else [b[0] / 4, b[0] % 4 * 16 + b[1] / 16, b[1] % 16 * 4 + b[2] / 64, b[2] % 64] + Sextets(b[3..])
  }

  function Chars(vs: seq<sextet>): (s: string)
    ensures |s| == |vs| && forall i :: 0 <= i < |vs| ==> s[i] == ToChar(vs[i])
  {
    seq(|vs|, i requires 0 <= i < |vs| => ToChar(vs[i]))
  }

  function Padding(n: nat): string {
    if n % 3 == 1 then "==" else if n % 3 == 2 then "=" else ""
  }

  /** `buffer.toString('base64')`. */
  function Encode64(b: Bytes): string {
    Chars(Sextets(b)) + Padding(|b|)
  }

  /** The values of a text, skipping every character outside the alphabet. */
  function Values(s: string): seq<sextet> {
    if s == [] then []
    else (match FromChar(s[0]) case None => [] case Some(v) => [v]) + Values(s[1..])
  }

  function FromSextets(vs: seq<sextet>): Bytes {
    if |vs| < 2 then []
    else
      var a: int, b: int := vs[0], vs[1];
      if |vs| == 2 then [a * 4 + b / 16]
      else
        var c: int := vs[2];
        if |vs| == 3 then [a * 4 + b / 16, b % 16 * 16 + c / 4]
        else
          var d: int := vs[3];
          [a * 4 + b / 16, b % 16 * 16 + c / 4, c % 4 * 64 + d] + FromSextets(vs[4..])
  }

  /** `Buffer.from(s, 'base64')`. */
  function Decode64(s: string): Bytes {
    FromSextets(Values(s))
  }

  lemma CharRoundTrip(v: sextet)
    ensures FromChar(ToChar(v)) == Some(v)
  {
  }

  lemma {:induction false} ValuesOfChars(vs: seq<sextet>, pad: string)
    requires forall i :: 0 <= i < |pad| ==> pad[i] == '='
    ensures Values(Chars(vs) + pad) == vs
    decreases |vs|, |pad|
  {
    if vs != [] {
      CharRoundTrip(vs[0]);
      assert (Chars(vs) + pad)[1..] == Chars(vs[1..]) + pad;
      ValuesOfChars(vs[1..], pad);
    } else if pad != [] {
      assert Chars(vs) + pad == pad && pad[1..] == Chars(vs) + pad[1..];
      ValuesOfChars(vs, pad[1..]);
    }
  }

  lemma {:induction false} SextetsRoundTrip(b: Bytes)
    ensures FromSextets(Sextets(b)) == b
    decreases |b|
  {
    if |b| >= 3 {
      SextetsRoundTrip(b[3..]);
      var vs := Sextets(b);
      assert vs[4..] == Sextets(b[3..]);
      GroupRoundTrip(b[0], b[1], b[2]);
      assert b == [b[0], b[1], b[2]] + b[3..];
    }
  }

  lemma GroupRoundTrip(x: byte, y: byte, z: byte)
    ensures var a, b, c, d := x / 4, x % 4 * 16 + y / 16, y % 16 * 4 + z / 64, z % 64;
            a * 4 + b / 16 == x && b % 16 * 16 + c / 4 == y && c % 4 * 64 + d == z
  {
  }

  /** Decoding the base64 text of any bytes gives the bytes. */
  lemma Base64RoundTrip(b: Bytes)
    ensures Decode64(Encode64(b)) == b
  {
    ValuesOfChars(Sextets(b), Padding(|b|));
    SextetsRoundTrip(b);
  }

  /** The alphabet of section 4 of RFC 4648: A to Z, a to z, 0 to 9, + and /. */
  lemma CharsAreTheAlphabet(v: sextet)
    ensures ToChar(0) == 'A' && ToChar(26) == 'a' && ToChar(52) == '0' && ToChar(62) == '+' && ToChar(63) == '/'
    ensures v !in {0, 26, 52, 62, 63} ==> ToChar(v) as int == ToChar(v - 1) as int + 1
  {
  }

  /** Four sextets are the 24 bits of the three bytes; those of one or two left over are filled with zero bits. */
  lemma SextetsAreTheBits(x: byte, y: byte, z: byte)
    ensures var vs := Sextets([x, y, z]);
            |vs| == 4 && 262144 * (vs[0] as int) + 4096 * (vs[1] as int) + 64 * (vs[2] as int) + vs[3] as int
                          == 65536 * (x as int) + 256 * (y as int) + z as int
    ensures var vs := Sextets([x, y]);
            |vs| == 3 && 4096 * (vs[0] as int) + 64 * (vs[1] as int) + vs[2] as int == (256 * (x as int) + y as int) * 4
    ensures var vs := Sextets([x]);
            |vs| == 2 && 64 * (vs[0] as int) + vs[1] as int == x as int * 16
  {
    assert [x, y, z][3..] == [];
  }

  /** The text of any bytes has four characters for every three bytes started, the last ones '=' where bytes are missing. */
  lemma {:induction false} SextetCount(b: Bytes)
    ensures |Sextets(b)| == |b| / 3 * 4 + (if |b| % 3 == 0 then 0 else |b| % 3 + 1)
    decreases |b|
  {
    if |b| >= 3 {
      SextetCount(b[3..]);
    }
  }

  lemma EncodedLength(b: Bytes)
    ensures |Encode64(b)| == (|b| + 2) / 3 * 4
    ensures var missing := (3 - |b| % 3) % 3;
            forall i :: 0 <= i < |Encode64(b)| ==> (Encode64(b)[i] == '=' <==> i >= |Encode64(b)| - missing)
  {
    SextetCount(b);
    var vs := Sextets(b);
    forall i | 0 <= i < |vs| ensures Encode64(b)[i] != '=' {
      assert Encode64(b)[i] == ToChar(vs[i]);
    }
  }

  // ---- text ----

  predicate Ascii(s: string) {
    forall i :: 0 <= i < |s| ==> s[i] as int < 128
  }

  /** The UTF-8 bytes of an ASCII text. */
  function Utf8(s: string): (b: Bytes)
    requires Ascii(s)
    ensures |b| == |s| && forall i :: 0 <= i < |s| ==> b[i] == s[i] as int
  {
    seq(|s|, i requires 0 <= i < |s| => s[i] as int)
  }

  /** The text of bytes, one character for each as UTF-8 has it below 128. */
  function TextOf(b: Bytes): (s: string)
    ensures |s| == |b| && forall i :: 0 <= i < |b| ==> s[i] == b[i] as char
  {
    seq(|b|, i requires 0 <= i < |b| => b[i] as char)
  }

  /** `.replace` of every double quote by nothing. */
  function StripQuotes(s: string): string {
    if s == [] then [] else (if s[0] == '"' then [] else [s[0]]) + StripQuotes(s[1..])
  }

  lemma {:induction false} StripQuotesConcat(a: string, b: string)
    ensures StripQuotes(a + b) == StripQuotes(a) + StripQuotes(b)
  {
    if a == [] {
      assert a + b == b;
    } else {
      assert (a + b)[1..] == a[1..] + b;
      StripQuotesConcat(a[1..], b);
    }
  }

  lemma {:induction false} NothingToStrip(s: string)
    requires forall i :: 0 <= i < |s| ==> s[i] != '"'
    ensures StripQuotes(s) == s
  {
    if s != [] {
      NothingToStrip(s[1..]);
    }
  }

  function Quoted(s: string): string {
    "\"" + s + "\""
  }

  lemma StripUndoesQuotes(s: string)
    requires forall i :: 0 <= i < |s| ==> s[i] != '"'
    ensures StripQuotes(Quoted(s)) == s
  {
    NothingToStrip(s);
    StripQuotesConcat("\"" + s, "\"");
    StripQuotesConcat("\"", s);
  }

  // ---- cursors ----

  lemma QuotedIsAscii(n: nat)
    ensures Ascii(Quoted(ToText(n)))
  {
  }

  /** `_encodeZerionPageOffset`: an absent or zero offset has no cursor. */
  function EncodeZerionPageOffset(offset: Option<nat>): Option<string> {
    if offset.None? || offset.value == 0 then None
    else
      QuotedIsAscii(offset.value);
      Some(Encode64(Utf8(Quoted(ToText(offset.value)))))
  }

  function OffsetText(after: string): string {
    StripQuotes(TextOf(Decode64(after)))
  }

  // ---- query parameters ----

  /** The parameters of a URL in their order; a name may occur more than once. */
  type Params = seq<(string, string)>

  /** `get`: the first value of a name. */
  function Lookup(params: Params, name: string): Option<string> {
    if params == [] then None
    else if params[0].0 == name then Some(params[0].1)
    else Lookup(params[1..], name)
  }

  function Without(params: Params, name: string): Params {
    if params == [] then []
    else if params[0].0 == name then Without(params[1..], name)
    else [params[0]] + Without(params[1..], name)
  }

  /** `set`: the first occurrence gets the value and the others go; a new name goes to the end. */
  function SetParam(params: Params, name: string, value: string): Params {
    if params == [] then [(name, value)]
    else if params[0].0 == name then [(name, value)] + Without(params[1..], name)
    else [params[0]] + SetParam(params[1..], name, value)
  }

  lemma {:induction false} WithoutTwice(params: Params, name: string)
    ensures Without(Without(params, name), name) == Without(params, name)
  {
    if params != [] {
      WithoutTwice(params[1..], name);
      assert ([params[0]] + Without(params[1..], name))[1..] == Without(params[1..], name);
    }
  }

  lemma {:induction false} WithoutOthers(params: Params, name: string, other: string)
    requires name != other
    ensures Lookup(Without(params, name), other) == Lookup(params, other)
    ensures Without(Without(params, name), other) == Without(Without(params, other), name)
  {
    if params != [] {
      WithoutOthers(params[1..], name, other);
      assert ([params[0]] + Without(params[1..], name))[1..] == Without(params[1..], name);
      assert ([params[0]] + Without(params[1..], other))[1..] == Without(params[1..], other);
    }
  }

  /** Setting a parameter makes it the value looked up, and moves or changes no other parameter. */
  lemma {:induction false} SetParamMeans(params: Params, name: string, value: string)
    ensures Lookup(SetParam(params, name, value), name) == Some(value)
    ensures Without(SetParam(params, name, value), name) == Without(params, name)
  {
    if params != [] {
      if params[0].0 == name {
        WithoutTwice(params[1..], name);
        assert ([(name, value)] + Without(params[1..], name))[1..] == Without(params[1..], name);
      } else {
        SetParamMeans(params[1..], name, value);
        assert ([params[0]] + SetParam(params[1..], name, value))[1..] == SetParam(params[1..], name, value);
      }
    }
  }

  lemma SetParamOthers(params: Params, name: string, value: string, other: string)
    requires name != other
    ensures Lookup(SetParam(params, name, value), other) == Lookup(params, other)
    ensures Without(Without(SetParam(params, name, value), name), other) == Without(Without(params, name), other)
  {
    SetParamMeans(params, name, value);
    WithoutOthers(params, name, other);
    WithoutOthers(SetParam(params, name, value), name, other);
  }

  /** A URL under construction. */
  class ZerionUrl {
    var searchParams: Params

    constructor (searchParams: Params)
      ensures this.searchParams == searchParams
    {
      this.searchParams := searchParams;
    }

    method Set(name: string, value: string)
      modifies this
      ensures searchParams == SetParam(old(searchParams), name, value)
    {
      searchParams := SetParam(searchParams, name, value);
    }
  }

  /** The parameter is there and not empty. */
  predicate Given(params: Params, name: string) {
    match Lookup(params, name)
    case None => false
    case Some(value) => value != ""
  }

  /** The parameters other than `limit` and `offset`, in their order. */
  function Rest(params: Params): Params {
    Without(Without(params, "limit"), "offset")
  }

  /** `_decodeZerionPagination`: the provider's parameters stay, in their order; `limit` and `offset` are set from them. */
  method DecodeZerionPagination(params: Params) returns (zerionUrl: ZerionUrl)
    ensures fresh(zerionUrl)
    ensures Rest(zerionUrl.searchParams) == Rest(params)
    ensures Lookup(zerionUrl.searchParams, "limit") ==
            if Lookup(params, "page[size]") in {None, Some("")} then Lookup(params, "limit") else Lookup(params, "page[size]")
    ensures Lookup(zerionUrl.searchParams, "offset") ==
            if Lookup(params, "page[after]") in {None, Some("")} then Lookup(params, "offset")
            else Some(OffsetText(Lookup(params, "page[after]").value))
  {
    zerionUrl := new ZerionUrl(params);
    var size := Lookup(params, "page[size]");
    var after := Lookup(params, "page[after]");
    if Given(params, "page[size]") {
      SetParamMeans(params, "limit", size.value);
      SetParamOthers(params, "limit", size.value, "offset");
      zerionUrl.Set("limit", size.value);
    }
    if Given(params, "page[after]") {
      ghost var before := zerionUrl.searchParams;
      SetParamMeans(before, "offset", OffsetText(after.value));
      SetParamOthers(before, "offset", OffsetText(after.value), "limit");
      WithoutOthers(before, "limit", "offset");
      WithoutOthers(SetParam(before, "offset", OffsetText(after.value)), "limit", "offset");
      zerionUrl.Set("offset", OffsetText(after.value));
    }
  }

  /** For every positive offset, decoding the cursor made by the encoder gives back the offset's decimal
      text, and so the offset. */
  lemma CursorRoundTrip(offset: nat)
    requires offset > 0
    ensures EncodeZerionPageOffset(Some(offset)).Some?
    ensures OffsetText(EncodeZerionPageOffset(Some(offset)).value) == ToText(offset)
    ensures FromText(OffsetText(EncodeZerionPageOffset(Some(offset)).value)) == offset
  {
    QuotedIsAscii(offset);
    QuotedRoundTrip(ToText(offset));
    FromToText(offset);
  }

  /** Quoting a text without quotes, encoding it, and reading the cursor back gives the text. */
  lemma QuotedRoundTrip(text: string)
    requires Ascii(Quoted(text)) && forall i :: 0 <= i < |text| ==> text[i] != '"'
    ensures OffsetText(Encode64(Utf8(Quoted(text)))) == text
  {
    AsciiRoundTrip(Quoted(text));
    StripUndoesQuotes(text);
  }

  /** Encoding an ASCII text and decoding it again gives the text. */
  lemma AsciiRoundTrip(text: string)
    requires Ascii(text)
    ensures TextOf(Decode64(Encode64(Utf8(text)))) == text
  {
    var bytes := Utf8(text);
    Base64RoundTrip(bytes);
    assert TextOf(bytes) == text;
  }

  /** There is a cursor exactly for an offset that is given and not zero. */
  lemma CursorIff(offset: Option<nat>)
    ensures EncodeZerionPageOffset(offset) == None <==> offset == None || offset == Some(0)
  {
  }

  /** Different offsets have different cursors. */
  lemma CursorsDiffer(a: nat, b: nat)
    requires a > 0 && b > 0 && EncodeZerionPageOffset(Some(a)) == EncodeZerionPageOffset(Some(b))
    ensures a == b
  {
    CursorRoundTrip(a);
    CursorRoundTrip(b);
  }

  /** A next link carrying the cursor of an offset is read back as that offset. */
  method NextLinkKeepsOffset(params: Params, offset: nat) returns (zerionUrl: ZerionUrl)
    requires offset > 0
    ensures Lookup(zerionUrl.searchParams, "offset") == Some(ToText(offset))
  {
    CursorRoundTrip(offset);
    var cursor := EncodeZerionPageOffset(Some(offset)).value;
    assert OffsetText("") == "";
    SetParamMeans(params, "page[after]", cursor);
    zerionUrl := DecodeZerionPagination(SetParam(params, "page[after]", cursor));
  }
}
