/**
 * The base64url codec of lib/convert.ts.
 *
 * `toBase64` is standard base64 (section 4 of RFC 4648, what Node's
 * `Buffer.toString("base64")` produces), followed by the two global
 * substitutions '/' -> '_' and '+' -> '-' (the URL-safe alphabet of
 * section 5 of RFC 4648) and the removal of the trailing '=' padding
 * (allowed by section 3.2 of RFC 4648). `fromBase64` undoes the two
 * substitutions and decodes.
 */
module Base64Url {

  /** One element of a Uint8Array. */
  newtype Byte = x: int | 0 <= x < 256

  // ---------------------------------------------------------------------
  // Alphabets
  // ---------------------------------------------------------------------

  /** The 64 characters of the standard alphabet (RFC 4648, Table 1). */
  predicate IsStdChar(c: char) {
    ('A' <= c <= 'Z') || ('a' <= c <= 'z') || ('0' <= c <= '9') || c == '+' || c == '/'
  }

  /** The 64 characters of the URL- and filename-safe alphabet (RFC 4648, Table 2). */
  predicate IsUrlChar(c: char) {
    ('A' <= c <= 'Z') || ('a' <= c <= 'z') || ('0' <= c <= '9') || c == '-' || c == '_'
  }

  predicate AllStd(s: string) {
    forall i :: 0 <= i < |s| ==> IsStdChar(s[i])
  }

  predicate AllUrl(s: string) {
    forall i :: 0 <= i < |s| ==> IsUrlChar(s[i])
  }

  /** The character that encodes the 6-bit value `v` in the standard alphabet. */
  function StdChar(v: int): (c: char)
    requires 0 <= v < 64
    ensures IsStdChar(c)
  {
    if v < 26 then (65 + v) as char
    else if v < 52 then (97 + v - 26) as char
    else if v < 62 then (48 + v - 52) as char
    else if v == 62 then '+'
    else '/'
  }

  /** The 6-bit value a standard-alphabet character encodes. */
  function StdValue(c: char): (v: int)
    requires IsStdChar(c)
    ensures 0 <= v < 64 && StdChar(v) == c
  {
    if 'A' <= c <= 'Z' then c as int - 65
    else if 'a' <= c <= 'z' then c as int - 97 + 26
    else if '0' <= c <= '9' then c as int - 48 + 52
    else if c == '+' then 62
    else 63
  }

  lemma StdValueOfStdChar(v: int)
    requires 0 <= v < 64
    ensures StdValue(StdChar(v)) == v
  {
  }

  predicate AllSextets(v: seq<int>) {
    forall i :: 0 <= i < |v| ==> 0 <= v[i] < 64
  }

  // ---------------------------------------------------------------------
  // Standard base64: Buffer.from(input).toString("base64")
  // ---------------------------------------------------------------------

  /** Number of characters a final group of `r` (0, 1 or 2) bytes yields before padding. */
  function TailLength(r: int): int {
    if r == 0 then 0 else r + 1
  }

  /** The four 6-bit values of a group of three bytes, most significant bit first. */
  function EncodeGroup(b0: int, b1: int, b2: int): (g: seq<int>)
    requires 0 <= b0 < 256 && 0 <= b1 < 256 && 0 <= b2 < 256
    ensures |g| == 4 && AllSextets(g)
  {
    [b0 / 4, (b0 % 4) * 16 + b1 / 16, (b1 % 16) * 4 + b2 / 64, b2 % 64]
  }

  /**
   * The 6-bit groups of `b`: every 3 bytes give 4 values; a final group of
   * 1 or 2 bytes, filled up with zero bits, gives its first 2 or 3 values.
   */
  function Sextets(b: seq<Byte>): (v: seq<int>)
    ensures AllSextets(v)
    decreases |b|
  {
    if |b| == 0 then []
    else if |b| == 1 then EncodeGroup(b[0] as int, 0, 0)[..2]
    else if |b| == 2 then EncodeGroup(b[0] as int, b[1] as int, 0)[..3]
    else EncodeGroup(b[0] as int, b[1] as int, b[2] as int) + Sextets(b[3..])
  }

  function StdLetters(v: seq<int>): (s: string)
    requires AllSextets(v)
  {
    seq(|v|, i requires 0 <= i < |v| => StdChar(v[i]))
  }

  /** The '=' characters that complete the last group of 4. */
  function Padding(n: nat): string {
    if n % 3 == 1 then "==" else if n % 3 == 2 then "=" else ""
  }

  /** Standard base64 with padding, as `Buffer.toString("base64")` writes it. */
  function StdEncode(b: seq<Byte>): string {
    StdLetters(Sextets(b)) + Padding(|b|)
  }

  // ---------------------------------------------------------------------
  // The string steps of the two chains
  // ---------------------------------------------------------------------

  /** `s.replace(/x/g, y)` for single characters `x` and `y`. */
  function ReplaceAll(s: string, x: char, y: char): string {
    seq(|s|, i requires 0 <= i < |s| => if s[i] == x then y else s[i])
  }

  /** `.replace(/\//g, "_").replace(/\+/g, "-")` */
  function ToUrlAlphabet(s: string): string {
    ReplaceAll(ReplaceAll(s, '/', '_'), '+', '-')
  }

  /** `.replace(/_/g, "/").replace(/-/g, "+")` */
  function ToStdAlphabet(s: string): string {
    ReplaceAll(ReplaceAll(s, '_', '/'), '-', '+')
  }

  /**
   * `s.replace(/=+$/, "")`: the result is the prefix of `s` left once the
   * maximal run of '=' at its end is removed.
   */
  function TrimPadding(s: string): (r: string)
    ensures r <= s
    ensures forall i :: |r| <= i < |s| ==> s[i] == '='
    ensures r == [] || r[|r| - 1] != '='
    decreases |s|
  {
    if |s| > 0 && s[|s| - 1] == '=' then TrimPadding(s[..|s| - 1]) else s
  }

  // ---------------------------------------------------------------------
  // The codec
  // ---------------------------------------------------------------------

  /** `toBase64` (lib/convert.ts:1-6). */
  function ToBase64(input: seq<Byte>): (s: string) {
    TrimPadding(ToUrlAlphabet(StdEncode(input)))
  }

  /**
   * The inputs on which `fromBase64` is specified here: URL-alphabet
   * characters only, and no dangling single character in the last group.
   */
  predicate IsBase64Url(s: string) {
    AllUrl(s) && |s| % 4 != 1
  }

  function StdValues(t: string): (v: seq<int>)
    requires AllStd(t)
    ensures |v| == |t| && AllSextets(v)
  {
    seq(|t|, i requires 0 <= i < |t| => StdValue(t[i]))
  }

  /** The three bytes four 6-bit values stand for. */
  function DecodeGroup(v0: int, v1: int, v2: int, v3: int): (g: seq<Byte>)
    requires 0 <= v0 < 64 && 0 <= v1 < 64 && 0 <= v2 < 64 && 0 <= v3 < 64
    ensures |g| == 3
  {
    [(v0 * 4 + v1 / 16) as Byte, ((v1 % 16) * 16 + v2 / 4) as Byte, ((v2 % 4) * 64 + v3) as Byte]
  }

  /**
   * The bytes of a sequence of 6-bit values: every 4 values give 3 bytes; a
   * final group of 2 or 3 values gives 1 or 2 bytes, its left-over low bits
   * ignored; a single dangling value gives nothing.
   */
  function DecodeSextets(v: seq<int>): (b: seq<Byte>)
    requires AllSextets(v)
    decreases |v|
  {
    if |v| < 2 then []
    else if |v| == 2 then DecodeGroup(v[0], v[1], 0, 0)[..1]
    else if |v| == 3 then DecodeGroup(v[0], v[1], v[2], 0)[..2]
    else DecodeGroup(v[0], v[1], v[2], v[3]) + DecodeSextets(v[4..])
  }

  /** `Buffer.from(t, "base64")` on unpadded standard base64. */
  function StdDecode(t: string): seq<Byte>
    requires AllStd(t)
  {
    DecodeSextets(StdValues(t))
  }

  /** `fromBase64` (lib/convert.ts:8-11). */
  function FromBase64(input: string): (bytes: seq<Byte>)
    requires IsBase64Url(input)
  {
    UrlToStdKeepsShape(input);
    StdDecode(ToStdAlphabet(input))
  }

  lemma UrlToStdKeepsShape(s: string)
    requires IsBase64Url(s)
    ensures AllStd(ToStdAlphabet(s))
  {
  }

  // ---------------------------------------------------------------------
  // Properties
  // ---------------------------------------------------------------------

  /** 4 values per whole group of 3 bytes, 2 or 3 for a final partial group. */
  lemma {:induction false} SextetsCount(b: seq<Byte>, q: nat, r: nat)
    requires |b| == 3 * q + r && r < 3
    ensures |Sextets(b)| == 4 * q + TailLength(r)
    decreases q
  {
    if q > 0 {
      SextetsCount(b[3..], q - 1, r);
    }
  }

  lemma SextetsLength(b: seq<Byte>)
    ensures |Sextets(b)| == 4 * (|b| / 3) + TailLength(|b| % 3)
    ensures |Sextets(b)| % 4 == TailLength(|b| % 3)
  {
    var q, t := |b| / 3, TailLength(|b| % 3);
    SextetsCount(b, q, |b| % 3);
    RemainderOfGroups(q, t);
  }

  lemma RemainderOfGroups(q: nat, t: nat)
    requires t < 4
    ensures (4 * q + t) % 4 == t
  {
  }

  /** Every group of 3 bytes survives the split into 4 values and back. */
  lemma GroupRoundTrip(b0: int, b1: int, b2: int)
    requires 0 <= b0 < 256 && 0 <= b1 < 256 && 0 <= b2 < 256
    ensures var g := EncodeGroup(b0, b1, b2);
      DecodeGroup(g[0], g[1], g[2], g[3]) == [b0 as Byte, b1 as Byte, b2 as Byte]
  {
    DivMod(b0, 4, b0 / 4, b0 % 4);
    DivMod((b0 % 4) * 16 + b1 / 16, 16, b0 % 4, b1 / 16);
    DivMod(b1, 16, b1 / 16, b1 % 16);
    DivMod((b1 % 16) * 4 + b2 / 64, 4, b1 % 16, b2 / 64);
    DivMod(b2, 64, b2 / 64, b2 % 64);
  }

  /** Division by 4, 16 or 64 is determined by quotient and remainder. */
  lemma DivMod(x: int, d: int, q: int, r: int)
    requires d == 4 || d == 16 || d == 64
    requires 0 <= r < d && x == q * d + r
    ensures x / d == q && x % d == r
  {
    if d == 4 {
      assert x == q * 4 + r;
    } else if d == 16 {
      assert x == q * 16 + r;
    } else {
      assert x == q * 64 + r;
    }
  }

  /** Decoding splits after the first group of 4 values. */
  lemma DecodeFirstGroup(b: seq<Byte>)
    requires |b| >= 3
    ensures var g := EncodeGroup(b[0] as int, b[1] as int, b[2] as int);
      DecodeSextets(Sextets(b)) == DecodeGroup(g[0], g[1], g[2], g[3]) + DecodeSextets(Sextets(b[3..]))
  {
    var g := EncodeGroup(b[0] as int, b[1] as int, b[2] as int);
    var w := Sextets(b[3..]);
    assert Sextets(b) == g + w;
    assert (g + w)[4..] == w;
  }

  /** The first 4 values of at least 3 bytes decode back to those 3 bytes. */
  lemma FullGroupRoundTrip(b: seq<Byte>)
    requires |b| >= 3
    ensures DecodeSextets(Sextets(b)) == b[..3] + DecodeSextets(Sextets(b[3..]))
  {
    DecodeFirstGroup(b);
    FirstGroupBytes(b);
  }

  lemma FirstGroupBytes(b: seq<Byte>)
    requires |b| >= 3
    ensures var g := EncodeGroup(b[0] as int, b[1] as int, b[2] as int);
      DecodeGroup(g[0], g[1], g[2], g[3]) == b[..3]
  {
    assert b[..3] == [b[0], b[1], b[2]];
    GroupRoundTrip(b[0] as int, b[1] as int, b[2] as int);
  }

  lemma OneByteRoundTrip(b: seq<Byte>)
    requires |b| == 1
    ensures DecodeSextets(Sextets(b)) == b
  {
    var g := EncodeGroup(b[0] as int, 0, 0);
    GroupRoundTrip(b[0] as int, 0, 0);
    assert g[2] == 0 && g[3] == 0;
  }

  lemma TwoBytesRoundTrip(b: seq<Byte>)
    requires |b| == 2
    ensures DecodeSextets(Sextets(b)) == b
  {
    var g := EncodeGroup(b[0] as int, b[1] as int, 0);
    GroupRoundTrip(b[0] as int, b[1] as int, 0);
    assert g[3] == 0;
  }

  /** Decoding the 6-bit values of `b` gives `b` back. */
  lemma {:induction false} DecodeSextetsInverse(b: seq<Byte>)
    ensures DecodeSextets(Sextets(b)) == b
    decreases |b|
  {
    if |b| == 0 {
    } else if |b| == 1 {
      OneByteRoundTrip(b);
    } else if |b| == 2 {
      TwoBytesRoundTrip(b);
    } else {
      FullGroupRoundTrip(b);
      DecodeSextetsInverse(b[3..]);
      assert b == b[..3] + b[3..];
    }
  }

  /** Replacing characters commutes with concatenation. */
  lemma ReplaceAllAppend(a: string, b: string, x: char, y: char)
    ensures ReplaceAll(a + b, x, y) == ReplaceAll(a, x, y) + ReplaceAll(b, x, y)
  {
    assert forall i :: 0 <= i < |a + b| ==> ReplaceAll(a + b, x, y)[i] == (ReplaceAll(a, x, y) + ReplaceAll(b, x, y))[i];
  }

  /** Neither substitution touches the '=' padding. */
  lemma ToUrlAlphabetAppend(a: string, b: string)
    ensures ToUrlAlphabet(a + b) == ToUrlAlphabet(a) + ToUrlAlphabet(b)
  {
    ReplaceAllAppend(a, b, '/', '_');
    ReplaceAllAppend(ReplaceAll(a, '/', '_'), ReplaceAll(b, '/', '_'), '+', '-');
  }

  /** Removing a run of '=' appended to a string that does not end in '=' gives that string back. */
  lemma {:induction false} TrimPaddingOfPadded(x: string, pad: string)
    requires x == [] || x[|x| - 1] != '='
    requires forall i :: 0 <= i < |pad| ==> pad[i] == '='
    ensures TrimPadding(x + pad) == x
    decreases |pad|
  {
    if |pad| > 0 {
      assert (x + pad)[..|x + pad| - 1] == x + pad[..|pad| - 1];
      TrimPaddingOfPadded(x, pad[..|pad| - 1]);
    } else {
      assert x + pad == x;
    }
  }

  /**
   * What `toBase64` computes, without the detour through padding: the
   * URL-alphabet letters of the 6-bit values of the input.
   */
  lemma ToBase64Letters(b: seq<Byte>)
    ensures ToBase64(b) == ToUrlAlphabet(StdLetters(Sextets(b)))
  {
    var body := StdLetters(Sextets(b));
    ToUrlAlphabetAppend(body, Padding(|b|));
    var ubody := ToUrlAlphabet(body);
    assert ToUrlAlphabet(Padding(|b|)) == Padding(|b|);
    assert ubody == [] || ubody[|ubody| - 1] != '=';
    TrimPaddingOfPadded(ubody, Padding(|b|));
  }

  /** The output of `toBase64` uses only `A-Z a-z 0-9 - _`: no '/', '+' or '='. */
  lemma ToBase64Alphabet(b: seq<Byte>)
    ensures AllUrl(ToBase64(b))
    ensures forall i :: 0 <= i < |ToBase64(b)| ==> ToBase64(b)[i] !in {'/', '+', '='}
  {
    ToBase64Letters(b);
  }

  /** `|toBase64(b)|` is ceil(4|b|/3): 4 characters per full group, 2 or 3 for a final partial one. */
  lemma ToBase64Length(b: seq<Byte>)
    ensures |ToBase64(b)| == 4 * (|b| / 3) + (if |b| % 3 == 0 then 0 else if |b| % 3 == 1 then 2 else 3)
    ensures |ToBase64(b)| == (4 * |b| + 2) / 3
    ensures IsBase64Url(ToBase64(b))
  {
    ToBase64Letters(b);
    ToBase64Alphabet(b);
    SextetsLength(b);
  }

  /** Padding with '=' to a multiple of 4 characters. */
  function PadTo4(s: string): (r: string)
    ensures |r| % 4 == 0
  {
    s + seq((4 - |s| % 4) % 4, _ => '=')
  }

  /**
   * Only trailing '=' are removed: padding the output again gives the
   * standard encoding with '_' and '-' substituted.
   */
  lemma ToBase64Repadded(b: seq<Byte>)
    ensures PadTo4(ToBase64(b)) == ToUrlAlphabet(StdEncode(b))
  {
    ToBase64Letters(b);
    ToUrlAlphabetAppend(StdLetters(Sextets(b)), Padding(|b|));
    assert ToUrlAlphabet(Padding(|b|)) == Padding(|b|);
    SextetsLength(b);
    PadTo4Letters(ToBase64(b), |b|);
  }

  lemma PadTo4Letters(x: string, n: nat)
    requires |x| % 4 == TailLength(n % 3)
    ensures PadTo4(x) == x + Padding(n)
  {
    assert seq((4 - |x| % 4) % 4, _ => '=') == Padding(n);
  }

  /** The decoder's substitution undoes the encoder's on strings of the standard alphabet ... */
  lemma StdSubstitutionInverse(s: string)
    requires AllStd(s)
    ensures AllUrl(ToUrlAlphabet(s))
    ensures ToStdAlphabet(ToUrlAlphabet(s)) == s
  {
    assert forall i :: 0 <= i < |s| ==> ToStdAlphabet(ToUrlAlphabet(s))[i] == s[i];
  }

  /** ... and the encoder's undoes the decoder's on strings of the URL alphabet. */
  lemma UrlSubstitutionInverse(s: string)
    requires AllUrl(s)
    ensures AllStd(ToStdAlphabet(s))
    ensures ToUrlAlphabet(ToStdAlphabet(s)) == s
  {
    assert forall i :: 0 <= i < |s| ==> ToUrlAlphabet(ToStdAlphabet(s))[i] == s[i];
  }

  /** Undoing the substitution on the output of `toBase64` gives back the 6-bit values of the input. */
  lemma ValuesOfToBase64(b: seq<Byte>)
    ensures IsBase64Url(ToBase64(b))
    ensures StdValues(ToStdAlphabet(ToBase64(b))) == Sextets(b)
  {
    ToBase64Length(b);
    ToBase64Letters(b);
    var v := Sextets(b);
    StdSubstitutionInverse(StdLetters(v));
    forall i | 0 <= i < |v| ensures StdValues(StdLetters(v))[i] == v[i] {
      StdValueOfStdChar(v[i]);
    }
  }

  /** Round trip: `fromBase64(toBase64(b)) == b` for every byte sequence. */
  lemma RoundTrip(b: seq<Byte>)
    ensures IsBase64Url(ToBase64(b))
    ensures FromBase64(ToBase64(b)) == b
  {
    ValuesOfToBase64(b);
    DecodeSextetsInverse(b);
  }

  /** `toBase64` is injective: different byte sequences never share an encoding. */
  lemma ToBase64Injective(a: seq<Byte>, b: seq<Byte>)
    requires ToBase64(a) == ToBase64(b)
    ensures a == b
  {
    RoundTrip(a);
    RoundTrip(b);
  }

  /** The 6-bit values of a concatenation whose first part is whole groups of 3. */
  lemma {:induction false} SextetsAppend(a: seq<Byte>, b: seq<Byte>)
    requires |a| % 3 == 0
    ensures Sextets(a + b) == Sextets(a) + Sextets(b)
    decreases |a|
  {
    if |a| > 0 {
      assert (a + b)[3..] == a[3..] + b;
      assert (a + b)[..3] == a[..3];
      SextetsAppend(a[3..], b);
    } else {
      assert a + b == b;
    }
  }

  /** Block compositionality: encoding is per group of 3 bytes. */
  lemma ToBase64Append(a: seq<Byte>, b: seq<Byte>)
    requires |a| % 3 == 0
    ensures ToBase64(a + b) == ToBase64(a) + ToBase64(b)
    ensures ToBase64([]) == ""
  {
    ToBase64Letters(a + b);
    ToBase64Letters(a);
    ToBase64Letters(b);
    SextetsAppend(a, b);
    StdLettersAppend(Sextets(a), Sextets(b));
    ToUrlAlphabetAppend(StdLetters(Sextets(a)), StdLetters(Sextets(b)));
    ToBase64Letters([]);
  }

  lemma StdLettersAppend(v: seq<int>, w: seq<int>)
    requires AllSextets(v) && AllSextets(w)
    ensures StdLetters(v + w) == StdLetters(v) + StdLetters(w)
  {
  }

  // ---------------------------------------------------------------------
  // The other direction
  // ---------------------------------------------------------------------

  /**
   * 6-bit values that some byte sequence encodes to: no dangling single
   * value, and the bits a final partial group fills with zeros are zero.
   */
  predicate CanonicalSextets(v: seq<int>) {
    && |v| % 4 != 1
    && (|v| % 4 == 2 ==> v[|v| - 1] % 16 == 0)
    && (|v| % 4 == 3 ==> v[|v| - 1] % 4 == 0)
  }

  /** The strings `toBase64` can produce. */
  predicate IsCanonical(s: string) {
    IsBase64Url(s) && (UrlToStdKeepsShape(s); CanonicalSextets(StdValues(ToStdAlphabet(s))))
  }

  /** Four 6-bit values survive the merge into 3 bytes and back. */
  lemma GroupRoundTripBack(v0: int, v1: int, v2: int, v3: int)
    requires 0 <= v0 < 64 && 0 <= v1 < 64 && 0 <= v2 < 64 && 0 <= v3 < 64
    ensures var d := DecodeGroup(v0, v1, v2, v3);
      EncodeGroup(d[0] as int, d[1] as int, d[2] as int) == [v0, v1, v2, v3]
  {
    DivMod(v1, 16, v1 / 16, v1 % 16);
    DivMod(v0 * 4 + v1 / 16, 4, v0, v1 / 16);
    DivMod(v2, 4, v2 / 4, v2 % 4);
    DivMod((v1 % 16) * 16 + v2 / 4, 16, v1 % 16, v2 / 4);
    DivMod((v2 % 4) * 64 + v3, 64, v2 % 4, v3);
  }

  lemma EncodeFirstGroup(v: seq<int>)
    requires AllSextets(v) && |v| >= 4
    ensures Sextets(DecodeSextets(v)) == v[..4] + Sextets(DecodeSextets(v[4..]))
  {
    var d := DecodeGroup(v[0], v[1], v[2], v[3]);
    EncodeAfterFirstGroup(d, DecodeSextets(v[4..]));
    FirstGroupValues(v);
  }

  lemma EncodeAfterFirstGroup(d: seq<Byte>, rest: seq<Byte>)
    requires |d| == 3
    ensures Sextets(d + rest) == EncodeGroup(d[0] as int, d[1] as int, d[2] as int) + Sextets(rest)
  {
    assert (d + rest)[3..] == rest;
  }

  lemma FirstGroupValues(v: seq<int>)
    requires AllSextets(v) && |v| >= 4
    ensures var d := DecodeGroup(v[0], v[1], v[2], v[3]);
      EncodeGroup(d[0] as int, d[1] as int, d[2] as int) == v[..4]
  {
    assert v[..4] == [v[0], v[1], v[2], v[3]];
    GroupRoundTripBack(v[0], v[1], v[2], v[3]);
  }

  lemma EncodeTwoValues(v: seq<int>)
    requires AllSextets(v) && |v| == 2 && v[1] % 16 == 0
    ensures Sextets(DecodeSextets(v)) == v
  {
    var d := DecodeGroup(v[0], v[1], 0, 0);
    GroupRoundTripBack(v[0], v[1], 0, 0);
  }

  lemma EncodeThreeValues(v: seq<int>)
    requires AllSextets(v) && |v| == 3 && v[2] % 4 == 0
    ensures Sextets(DecodeSextets(v)) == v
  {
    var d := DecodeGroup(v[0], v[1], v[2], 0);
    GroupRoundTripBack(v[0], v[1], v[2], 0);
  }

  /** Encoding the bytes of canonical 6-bit values gives those values back. */
  lemma {:induction false} SextetsOfDecode(v: seq<int>)
    requires AllSextets(v) && CanonicalSextets(v)
    ensures Sextets(DecodeSextets(v)) == v
    decreases |v|
  {
    if |v| == 0 {
    } else if |v| == 2 {
      EncodeTwoValues(v);
    } else if |v| == 3 {
      EncodeThreeValues(v);
    } else {
      assert |v| >= 4;
      var w := v[4..];
      assert |w| % 4 == |v| % 4 && (|w| > 0 ==> w[|w| - 1] == v[|v| - 1]);
      SextetsOfDecode(w);
      EncodeFirstGroup(v);
      assert v == v[..4] + w;
    }
  }

  lemma StdLettersOfValues(t: string)
    requires AllStd(t)
    ensures StdLetters(StdValues(t)) == t
  {
  }

  /**
   * On canonical input `fromBase64` and `toBase64` are exact inverses the
   * other way round too: `toBase64(fromBase64(s)) == s`.
   */
  lemma CanonicalRoundTrip(s: string)
    requires IsCanonical(s)
    ensures ToBase64(FromBase64(s)) == s
  {
    UrlSubstitutionInverse(s);
    var t := ToStdAlphabet(s);
    var v := StdValues(t);
    SextetsOfDecode(v);
    ToBase64Letters(FromBase64(s));
    StdLettersOfValues(t);
  }

  /** The zero bits that fill up a final partial group. */
  lemma {:induction false} SextetsAreCanonical(b: seq<Byte>)
    ensures CanonicalSextets(Sextets(b))
    decreases |b|
  {
    if |b| == 1 {
      var x := b[0] as int;
      assert Sextets(b) == [x / 4, (x % 4) * 16];
    } else if |b| == 2 {
      var x, y := b[0] as int, b[1] as int;
      assert Sextets(b) == [x / 4, (x % 4) * 16 + y / 16, (y % 16) * 4];
    } else if |b| >= 3 {
      var g := EncodeGroup(b[0] as int, b[1] as int, b[2] as int);
      var w := Sextets(b[3..]);
      SextetsAreCanonical(b[3..]);
      assert Sextets(b) == g + w;
      CanonicalAfterGroup(g, w);
    }
  }

  lemma CanonicalAfterGroup(g: seq<int>, w: seq<int>)
    requires |g| == 4 && CanonicalSextets(w)
    ensures CanonicalSextets(g + w)
  {
    assert |g + w| % 4 == |w| % 4;
    if |w| > 0 {
      assert (g + w)[|g + w| - 1] == w[|w| - 1];
    }
  }

  /** Every output of `toBase64` is canonical. */
  lemma ToBase64Canonical(b: seq<Byte>)
    ensures IsCanonical(ToBase64(b))
  {
    ValuesOfToBase64(b);
    SextetsAreCanonical(b);
  }

  /**
   * Decoding is not injective on all well-formed input: "AB" and "AA" both
   * decode to the single byte 0, because the low bits of a final partial
   * group are ignored.
   */
  lemma DecodeIgnoresTrailingBits()
    ensures IsBase64Url("AB") && IsBase64Url("AA")
    ensures FromBase64("AB") == FromBase64("AA") == [0]
  {
    DecodesToZero("AB", 1);
    DecodesToZero("AA", 0);
  }

  lemma DecodesToZero(s: string, low: int)
    requires 0 <= low < 16 && s == ['A', (65 + low) as char]
    ensures IsBase64Url(s) && FromBase64(s) == [0]
  {
    assert ToStdAlphabet(s) == s;
    assert StdValues(s) == [0, low];
    assert DecodeGroup(0, low, 0, 0)[0] == 0;
  }
}
