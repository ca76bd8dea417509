/** The base64 encoding of section 4 of RFC 4648, as `base64.b64encode`
    applies it to the uploaded photo before it is embedded in a data URL.
    The decoder is the encoder's partner: it is what the receiving end of
    the data URL applies. */
module Base64 {
  import opened Wrappers

  /** An 8-bit byte. */
  type byte = b: int | 0 <= b < 256
  type Bytes = seq<byte>

  /** A 6-bit value: the index of one character of the base64 alphabet. */
  type Sextet = d: int | 0 <= d < 64

  const PadChar: char := '='

  /** Table 1 of section 4 of RFC 4648: `A`-`Z`, `a`-`z`, `0`-`9`, `+`, `/`. */
  function CharOf(d: Sextet): (c: char)
    ensures c != PadChar
  {
    if d < 26 then ('A' as int + d) as char
    else if d < 52 then ('a' as int + (d - 26)) as char
    else if d < 62 then ('0' as int + (d - 52)) as char
    else if d == 62 then '+'
    else '/'
  }

  /** The value of an alphabet character; `None` for any other character. */
  function ValueOf(c: char): (r: Option<Sextet>)
    ensures r.Some? ==> CharOf(r.value) == c
  {
    if 'A' <= c <= 'Z' then Some(c as int - 'A' as int)
    else if 'a' <= c <= 'z' then Some(c as int - 'a' as int + 26)
    else if '0' <= c <= '9' then Some(c as int - '0' as int + 52)
    else if c == '+' then Some(62)
    else if c == '/' then Some(63)
    else None
  }

  /** `ValueOf` reads back every alphabet character `CharOf` writes. */
  lemma ValueOfCharOf(d: Sextet)
    ensures ValueOf(CharOf(d)) == Some(d)
  {
  }

  predicate IsAlphabetChar(c: char) {
    ValueOf(c).Some?
  }

  /** The 24-bit group of three bytes, first byte most significant. */
  function Group(b0: byte, b1: byte, b2: byte): (n: nat)
    ensures n < 0x100_0000
  {
    (b0 * 256 + b1) * 256 + b2
  }

  /** The four 6-bit values of a 24-bit group, most significant first. */
  function Sextets(n: nat): (ds: seq<Sextet>)
    requires n < 0x100_0000
    ensures |ds| == 4
  {
    [n / 64 / 64 / 64, n / 64 / 64 % 64, n / 64 % 64, n % 64]
  }

  function EncodeGroup(b0: byte, b1: byte, b2: byte): (s: string)
    ensures |s| == 4
  {
    var ds := Sextets(Group(b0, b1, b2));
    [CharOf(ds[0]), CharOf(ds[1]), CharOf(ds[2]), CharOf(ds[3])]
  }

  /** `base64.b64encode`: every three bytes become four characters; a final
      group of one or two bytes is zero-filled and the characters that carry
      no input bits are replaced by `=`. */
  function Encode(b: Bytes): (s: string)
    ensures |s| == 4 * ((|b| + 2) / 3)
    decreases |b|
  {
    if |b| == 0 then ""
    else if |b| == 1 then EncodeGroup(b[0], 0, 0)[..2] + "=="
    else if |b| == 2 then EncodeGroup(b[0], b[1], 0)[..3] + "="
    else EncodeGroup(b[0], b[1], b[2]) + Encode(b[3..])
  }

  lemma GroupAlphabet(b0: byte, b1: byte, b2: byte)
    ensures var g := EncodeGroup(b0, b1, b2); forall i :: 0 <= i < 4 ==> IsAlphabetChar(g[i])
  {
    var g := EncodeGroup(b0, b1, b2);
    GroupValues(b0, b1, b2);
    forall i | 0 <= i < 4 ensures IsAlphabetChar(g[i]) {
      assert i == 0 || i == 1 || i == 2 || i == 3;
    }
  }

  /** Every character of the encoding is an alphabet character or the pad. */
  lemma {:induction false} EncodeAlphabet(b: Bytes)
    ensures forall i :: 0 <= i < |Encode(b)| ==> IsAlphabetChar(Encode(b)[i]) || Encode(b)[i] == PadChar
    decreases |b|
  {
    if |b| == 1 {
      GroupAlphabet(b[0], 0, 0);
    } else if |b| == 2 {
      GroupAlphabet(b[0], b[1], 0);
    } else if |b| >= 3 {
      var g, rest := EncodeGroup(b[0], b[1], b[2]), Encode(b[3..]);
      GroupAlphabet(b[0], b[1], b[2]);
      EncodeAlphabet(b[3..]);
      assert Encode(b) == g + rest;
      forall i | 4 <= i < |g + rest| ensures IsAlphabetChar((g + rest)[i]) || (g + rest)[i] == PadChar {
        assert (g + rest)[i] == rest[i - 4];
      }
    }
  }

  /** The three bytes of the 24-bit group that four 6-bit values spell. */
  function DecodeGroup(d0: Sextet, d1: Sextet, d2: Sextet, d3: Sextet): (b: Bytes)
    ensures |b| == 3
  {
    var n := ((d0 * 64 + d1) * 64 + d2) * 64 + d3;
    [n / 256 / 256, n / 256 % 256, n % 256]
  }

  /** Decoding of padded base64 text; `None` when a character is outside the
      alphabet, the length is not a multiple of four, or `=` appears other
      than at the end of the last group. */
  function Decode(s: string): (r: Option<Bytes>)
    decreases |s|
  {
    if |s| == 0 then Some([])
    else if |s| < 4 then None
    else
      var v0, v1, v2, v3 := ValueOf(s[0]), ValueOf(s[1]), ValueOf(s[2]), ValueOf(s[3]);
      if v0.None? || v1.None? then None
      else if |s| == 4 && s[2] == PadChar && s[3] == PadChar then
        Some(DecodeGroup(v0.value, v1.value, 0, 0)[..1])
      else if v2.None? then None
      else if |s| == 4 && s[3] == PadChar then
        Some(DecodeGroup(v0.value, v1.value, v2.value, 0)[..2])
      else if v3.None? then None
      else
        match Decode(s[4..])
        case None => None
        case Some(rest) => Some(DecodeGroup(v0.value, v1.value, v2.value, v3.value) + rest)
  }

  /** The six-bit digits of a group put back together give the group. */
  lemma SextetsRecombine(n: nat)
    requires n < 0x100_0000
    ensures var ds: seq<int> := Sextets(n); ((ds[0] * 64 + ds[1]) * 64 + ds[2]) * 64 + ds[3] == n
  {
    var q1 := n / 64;
    var q2 := q1 / 64;
    assert n == q1 * 64 + n % 64;
    assert q1 == q2 * 64 + q1 % 64;
    assert q2 == q2 / 64 * 64 + q2 % 64;
  }

  lemma DivMod64(q: int, r: int)
    requires 0 <= r < 64
    ensures (q * 64 + r) / 64 == q && (q * 64 + r) % 64 == r
  {
  }

  lemma DivMod256(q: int, r: int)
    requires 0 <= r < 256
    ensures (q * 256 + r) / 256 == q && (q * 256 + r) % 256 == r
  {
  }

  /** Splitting a group into 6-bit values and joining them back into bytes
      gives the three bytes it was made of. */
  lemma {:induction false} GroupRoundTrip(b0: byte, b1: byte, b2: byte)
    ensures var ds := Sextets(Group(b0, b1, b2)); DecodeGroup(ds[0], ds[1], ds[2], ds[3]) == [b0, b1, b2]
  {
    SextetsRecombine(Group(b0, b1, b2));
    DivMod256(b0 * 256 + b1, b2);
    DivMod256(b0, b1);
  }

  lemma GroupValues(b0: byte, b1: byte, b2: byte)
    ensures var s := EncodeGroup(b0, b1, b2); var ds := Sextets(Group(b0, b1, b2));
      ValueOf(s[0]) == Some(ds[0]) && ValueOf(s[1]) == Some(ds[1]) &&
      ValueOf(s[2]) == Some(ds[2]) && ValueOf(s[3]) == Some(ds[3])
  {
    var ds := Sextets(Group(b0, b1, b2));
    ValueOfCharOf(ds[0]);
    ValueOfCharOf(ds[1]);
    ValueOfCharOf(ds[2]);
    ValueOfCharOf(ds[3]);
  }

  /** One byte of input: the two significant characters carry all of it. */
  lemma {:induction false} OneByteRoundTrip(b0: byte)
    ensures var ds := Sextets(Group(b0, 0, 0)); DecodeGroup(ds[0], ds[1], 0, 0)[..1] == [b0]
  {
    var n := Group(b0, 0, 0);
    var ds := Sextets(n);
    SextetsRecombine(n);
    assert ds[2] == 0 && ds[3] == 0;
  }

  /** Two bytes of input: the three significant characters carry all of them. */
  lemma {:induction false} TwoByteRoundTrip(b0: byte, b1: byte)
    ensures var ds := Sextets(Group(b0, b1, 0)); DecodeGroup(ds[0], ds[1], ds[2], 0)[..2] == [b0, b1]
  {
    GroupRoundTrip(b0, b1, 0);
    assert Group(b0, b1, 0) == ((b0 * 256 + b1) * 4) * 64 + 0;
    DivMod64((b0 * 256 + b1) * 4, 0);
  }

  /** A full group of alphabet characters decodes to its three bytes
      followed by whatever the rest decodes to. */
  lemma DecodeFullGroup(g: string, t: string)
    requires |g| == 4
    requires IsAlphabetChar(g[0]) && IsAlphabetChar(g[1]) && IsAlphabetChar(g[2]) && IsAlphabetChar(g[3])
    ensures Decode(g + t) ==
      match Decode(t)
      case None => None
      case Some(rest) =>
        Some(DecodeGroup(ValueOf(g[0]).value, ValueOf(g[1]).value, ValueOf(g[2]).value, ValueOf(g[3]).value) + rest)
  {
    var s := g + t;
    assert s[..4] == g;
    assert s[4..] == t;
    assert s[2] != PadChar && s[3] != PadChar;
  }

  lemma DecodeEncodeEmpty()
    ensures Decode(Encode([])) == Some([])
  {
  }

  lemma DecodeEncodeOne(b0: byte)
    ensures Decode(Encode([b0])) == Some([b0])
  {
    var s := Encode([b0]);
    var g := EncodeGroup(b0, 0, 0);
    assert s == g[..2] + "==";
    assert s[0] == g[0] && s[1] == g[1] && s[2] == PadChar && s[3] == PadChar;
    GroupValues(b0, 0, 0);
    OneByteRoundTrip(b0);
  }

  lemma DecodeEncodeTwo(b0: byte, b1: byte)
    ensures Decode(Encode([b0, b1])) == Some([b0, b1])
  {
    var s := Encode([b0, b1]);
    var g := EncodeGroup(b0, b1, 0);
    assert s == g[..3] + "=";
    assert s[0] == g[0] && s[1] == g[1] && s[2] == g[2] && s[3] == PadChar;
    GroupValues(b0, b1, 0);
    TwoByteRoundTrip(b0, b1);
  }

  /** Decoding what `Encode` produced gives back the original bytes. */
  lemma {:induction false} DecodeEncode(b: Bytes)
    ensures Decode(Encode(b)) == Some(b)
    decreases |b|
  {
    hide *;
    if |b| == 0 {
      DecodeEncodeEmpty();
    } else if |b| == 1 {
      assert b == [b[0]];
      DecodeEncodeOne(b[0]);
    } else if |b| == 2 {
      assert b == [b[0], b[1]];
      DecodeEncodeTwo(b[0], b[1]);
    } else {
      DecodeEncode(b[3..]);
      assert b == [b[0], b[1], b[2]] + b[3..];
      DecodeEncodeGroup(b[0], b[1], b[2], b[3..]);
    }
  }

  /** A leading full group round-trips once the rest does. */
  lemma DecodeEncodeGroup(b0: byte, b1: byte, b2: byte, rest: Bytes)
    requires Decode(Encode(rest)) == Some(rest)
    ensures Decode(Encode([b0, b1, b2] + rest)) == Some([b0, b1, b2] + rest)
  {
    var b := [b0, b1, b2] + rest;
    var g := EncodeGroup(b0, b1, b2);
    assert b[3..] == rest;
    assert Encode(b) == g + Encode(rest);
    GroupValues(b0, b1, b2);
    GroupRoundTrip(b0, b1, b2);
    DecodeFullGroup(g, Encode(rest));
  }
}
