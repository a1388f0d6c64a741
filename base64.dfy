/**
 * `base64_encode` (src/http/request.rs), the encoder of the Basic
 * Authorization header: the alphabet of section 4 of RFC 4648, three input
 * bytes to four characters, `=` padding for a short last group.
 */
module Base64 {
  import opened Bytes

  /**
   * The character of a six-bit value: `BASE64_CHARS`, that is A to Z, a to z,
   * 0 to 9, `+` and `/`, as section 4 of RFC 4648 tabulates it.
   */
  function Letter(v: nat): (c: byte)
    requires v < 64
  {
    if v < 26 then 65 + v
    else if v < 52 then 71 + v
    else if v < 62 then v - 4
    else if v == 62 then 43
    else 47
  }

  const PAD: byte := 61

  predicate InAlphabet(c: byte)
  {
    65 <= c <= 90 || 97 <= c <= 122 || 48 <= c <= 57 || c == 43 || c == 47
  }

  /** The six-bit value of an alphabet character: the decoder's table. */
  function Sextet(c: byte): (v: nat)
    requires InAlphabet(c)
    ensures v < 64 && Letter(v) == c
  {
    if 65 <= c <= 90 then c - 65
    else if 97 <= c <= 122 then c - 71
    else if 48 <= c <= 57 then c + 4
    else if c == 43 then 62
    else 63
  }

  lemma LetterInAlphabet(v: nat)
    requires v < 64
    ensures InAlphabet(Letter(v)) && Sextet(Letter(v)) == v
  {
  }

  /** Byte `k` of the input, or 0 past its end (`b2`, `b3` of the loop). */
  function At(data: seq<byte>, k: nat): byte
  {
    if k < |data| then data[k] else 0
  }

  /**
   * The four characters one turn of the loop pushes for the group at `i`:
   * `b1 >> 2`, `(b1 & 3) << 4 | b2 >> 4`, `(b2 & 15) << 2 | b3 >> 6` and
   * `b3 & 63`, the last two replaced by `=` when the group is short. The
   * shifts and masks are written as division and remainder; the two parts
   * of each `|` occupy different bits, so it is an addition.
   */
  function Group(data: seq<byte>, i: nat): (g: seq<byte>)
    requires i < |data|
    ensures |g| == 4
  {
    var b1, b2, b3 := data[i], At(data, i + 1), At(data, i + 2);
    [Letter(b1 / 4),
     Letter((b1 % 4) * 16 + b2 / 16),
     if i + 1 < |data| then Letter((b2 % 16) * 4 + b3 / 64) else PAD,
     if i + 2 < |data| then Letter(b3 % 64) else PAD]
  }

  /** The characters the loop pushes from index `i` on. */
  function EncodeFrom(data: seq<byte>, i: nat): (r: seq<byte>)
    decreases |data| - i
  {
    if i >= |data| then [] else Group(data, i) + EncodeFrom(data, i + 3)
  }

  /** What `base64_encode` returns. */
  function Encode(data: seq<byte>): seq<byte>
  {
    EncodeFrom(data, 0)
  }

  /** `base64_encode`: the `while i < data.len()` loop, three bytes a turn. */
  method Base64Encode(data: seq<byte>) returns (result: seq<byte>)
    ensures result == Encode(data)
  {
    result := [];
    var i := 0;
    while i < |data|
      invariant i <= |data| + 2
      invariant result + EncodeFrom(data, i) == Encode(data)
      decreases |data| + 2 - i
    {
      var b1 := data[i];
      var b2 := if i + 1 < |data| then data[i + 1] else 0;
      var b3 := if i + 2 < |data| then data[i + 2] else 0;
      ghost var before := result;
      result := result + [Letter(b1 / 4)];
      result := result + [Letter((b1 % 4) * 16 + b2 / 16)];
      if i + 1 < |data| {
        result := result + [Letter((b2 % 16) * 4 + b3 / 64)];
      } else {
        result := result + [PAD];
      }
      if i + 2 < |data| {
        result := result + [Letter(b3 % 64)];
      } else {
        result := result + [PAD];
      }
      assert result == before + Group(data, i);
      assert EncodeFrom(data, i) == Group(data, i) + EncodeFrom(data, i + 3);
      i := i + 3;
    }
  }

  // ----------------------------------------------------------- properties

  /** The number of `=` at the end of the encoding of `n` bytes. */
  function Padding(n: nat): nat
  {
    (3 - n % 3) % 3
  }

  lemma {:induction false} EncodeFromLength(data: seq<byte>, i: nat)
    requires i <= |data|
    ensures |EncodeFrom(data, i)| == 4 * ((|data| - i + 2) / 3)
    decreases |data| - i
  {
    if i < |data| {
      var n := |data| - i;
      assert |EncodeFrom(data, i)| == 4 + |EncodeFrom(data, i + 3)|;
      if i + 3 <= |data| {
        EncodeFromLength(data, i + 3);
        assert (n + 2) / 3 == (n - 3 + 2) / 3 + 1;
      } else {
        assert EncodeFrom(data, i + 3) == [];
        assert (n + 2) / 3 == 1;
      }
    }
  }

  /** The encoding of `n` bytes has 4 * ceil(n / 3) characters. */
  lemma EncodeLength(data: seq<byte>)
    ensures |Encode(data)| == 4 * ((|data| + 2) / 3)
  {
    EncodeFromLength(data, 0);
  }

  /** Every character is from the alphabet except the padding, which fills exactly the last `Padding(n)` places. */
  predicate WellPadded(r: seq<byte>, pad: nat)
  {
    pad <= |r| &&
    (forall k :: 0 <= k < |r| - pad ==> InAlphabet(r[k])) &&
    (forall k :: |r| - pad <= k < |r| ==> r[k] == PAD)
  }

  lemma GroupChars(data: seq<byte>, i: nat)
    requires i < |data| && i % 3 == 0
    ensures WellPadded(Group(data, i), if i + 3 <= |data| then 0 else Padding(|data|))
  {
    var b1, b2, b3 := data[i], At(data, i + 1), At(data, i + 2);
    var c0, c1, c2, c3 := b1 / 4, (b1 % 4) * 16 + b2 / 16, (b2 % 16) * 4 + b3 / 64, b3 % 64;
    LetterInAlphabet(c0);
    LetterInAlphabet(c1);
    LetterInAlphabet(c2);
    LetterInAlphabet(c3);
    var g := Group(data, i);
    assert g[0] == Letter(c0) && g[1] == Letter(c1);
    if i + 3 <= |data| {
      assert g == [Letter(c0), Letter(c1), Letter(c2), Letter(c3)];
    } else if i + 2 == |data| {
      assert Padding(|data|) == 1;
      assert g == [Letter(c0), Letter(c1), Letter(c2), PAD];
    } else {
      assert Padding(|data|) == 2;
      assert g == [Letter(c0), Letter(c1), PAD, PAD];
    }
  }

  lemma {:induction false} EncodeFromChars(data: seq<byte>, i: nat)
    requires i <= |data| && i % 3 == 0
    ensures WellPadded(EncodeFrom(data, i), Padding(|data|))
    decreases |data| - i
  {
    if i < |data| {
      GroupChars(data, i);
      var g, rest := Group(data, i), EncodeFrom(data, i + 3);
      if i + 3 <= |data| {
        EncodeFromChars(data, i + 3);
        assert WellPadded(g + rest, Padding(|data|)) by {
          forall k | 0 <= k < |g + rest| - Padding(|data|) ensures InAlphabet((g + rest)[k]) {
            if k >= 4 { assert (g + rest)[k] == rest[k - 4]; }
          }
          forall k | |g + rest| - Padding(|data|) <= k < |g + rest| ensures (g + rest)[k] == PAD {
            assert (g + rest)[k] == rest[k - 4];
          }
        }
      } else {
        assert rest == [];
        assert g + rest == g;
      }
    } else {
      assert Padding(|data|) == 0;
    }
  }

  /** Only alphabet characters, and `=` exactly as the last (3 - n mod 3) mod 3 characters. */
  lemma EncodeChars(data: seq<byte>)
    ensures WellPadded(Encode(data), Padding(|data|))
  {
    EncodeFromChars(data, 0);
  }

  // --------------------------------------------------- decoding, RFC 4648

  /** The bytes a four-character group stands for, as a standard decoder reads it. */
  function DecodeGroup(g: seq<byte>): seq<byte>
    requires |g| == 4 && GroupShape(g)
  {
    var c0, c1 := Sextet(g[0]), Sextet(g[1]);
    var b1 := c0 * 4 + c1 / 16;
    if g[2] == PAD then [b1]
    else
      var c2 := Sextet(g[2]);
      var b2 := (c1 % 16) * 16 + c2 / 4;
      if g[3] == PAD then [b1, b2]
      else [b1, b2, (c2 % 4) * 64 + Sextet(g[3])]
  }

  /** Text a decoder accepts: whole groups, alphabet characters or `=`, and no `=` in the first two places of a group. */
  predicate Decodable(s: seq<byte>)
  {
    |s| % 4 == 0 &&
    (forall k :: 0 <= k < |s| ==> s[k] == PAD || InAlphabet(s[k])) &&
    (forall k :: 0 <= k < |s| && k % 4 < 2 ==> InAlphabet(s[k]))
  }

  /** Decoding well-formed Base64 text, four characters at a time. */
  function Decode(s: seq<byte>): seq<byte>
    requires Decodable(s)
    decreases |s|
  {
    if s == [] then []
    else DecodeGroup(s[..4]) + Decode(s[4..])
  }

  /** The bit arithmetic of one group: the four sextets hold the three bytes. */
  lemma SplitBytes(b1: byte, b2: byte, b3: byte)
    ensures (b1 / 4) * 4 + ((b1 % 4) * 16 + b2 / 16) / 16 == b1
    ensures (((b1 % 4) * 16 + b2 / 16) % 16) * 16 + ((b2 % 16) * 4 + b3 / 64) / 4 == b2
    ensures (((b2 % 16) * 4 + b3 / 64) % 4) * 64 + b3 % 64 == b3
  {
    assert ((b1 % 4) * 16 + b2 / 16) / 16 == b1 % 4;
    assert ((b1 % 4) * 16 + b2 / 16) % 16 == b2 / 16;
    assert ((b2 % 16) * 4 + b3 / 64) / 4 == b2 % 16;
    assert ((b2 % 16) * 4 + b3 / 64) % 4 == b3 / 64;
  }

  /** The four characters of a group are alphabet characters or `=`, `=` only in the last two places. */
  predicate GroupShape(g: seq<byte>)
    requires |g| == 4
  {
    InAlphabet(g[0]) && InAlphabet(g[1]) && (g[2] == PAD || InAlphabet(g[2])) && (g[3] == PAD || InAlphabet(g[3]))
  }

  lemma GroupRoundTrip(data: seq<byte>, i: nat)
    requires i < |data|
    ensures GroupShape(Group(data, i))
    ensures DecodeGroup(Group(data, i)) == data[i..if i + 3 <= |data| then i + 3 else |data|]
  {
    if i + 3 <= |data| {
      DecodeThree(data, i);
    } else if i + 2 == |data| {
      DecodeTwo(data, i);
    } else {
      DecodeOne(data, i);
    }
  }

  /** Three bytes in four characters decode back to themselves. */
  lemma DecodeThree(data: seq<byte>, i: nat)
    requires i + 3 <= |data|
    ensures GroupShape(Group(data, i)) && DecodeGroup(Group(data, i)) == data[i..i + 3]
  {
    var b1, b2, b3 := data[i], data[i + 1], data[i + 2];
    var c0, c1, c2, c3 := b1 / 4, (b1 % 4) * 16 + b2 / 16, (b2 % 16) * 4 + b3 / 64, b3 % 64;
    LetterInAlphabet(c0);
    LetterInAlphabet(c1);
    LetterInAlphabet(c2);
    LetterInAlphabet(c3);
    SplitBytes(b1, b2, b3);
    assert Group(data, i) == [Letter(c0), Letter(c1), Letter(c2), Letter(c3)];
    assert data[i..i + 3] == [b1, b2, b3];
  }

  /** Two bytes in three characters and one `=` decode back to themselves. */
  lemma DecodeTwo(data: seq<byte>, i: nat)
    requires i + 2 == |data|
    ensures GroupShape(Group(data, i)) && DecodeGroup(Group(data, i)) == data[i..]
  {
    var b1, b2 := data[i], data[i + 1];
    var c0, c1, c2 := b1 / 4, (b1 % 4) * 16 + b2 / 16, (b2 % 16) * 4;
    LetterInAlphabet(c0);
    LetterInAlphabet(c1);
    LetterInAlphabet(c2);
    SplitBytes(b1, b2, 0);
    assert Group(data, i) == [Letter(c0), Letter(c1), Letter(c2), PAD];
    assert data[i..] == [b1, b2];
  }

  /** One byte in two characters and two `=` decodes back to itself. */
  lemma DecodeOne(data: seq<byte>, i: nat)
    requires i + 1 == |data|
    ensures GroupShape(Group(data, i)) && DecodeGroup(Group(data, i)) == data[i..]
  {
    var b1 := data[i];
    var c0, c1 := b1 / 4, (b1 % 4) * 16;
    LetterInAlphabet(c0);
    LetterInAlphabet(c1);
    SplitBytes(b1, 0, 0);
    assert Group(data, i) == [Letter(c0), Letter(c1), PAD, PAD];
    assert data[i..] == [b1];
  }

  lemma DecodeFront(g: seq<byte>, rest: seq<byte>)
    requires |g| == 4 && GroupShape(g) && Decodable(rest)
    ensures Decodable(g + rest)
    ensures Decode(g + rest) == DecodeGroup(g) + Decode(rest)
  {
    var r := g + rest;
    forall k | 0 <= k < |r| ensures r[k] == PAD || InAlphabet(r[k]) {
      if k >= 4 { assert r[k] == rest[k - 4]; } else { assert r[k] == g[k]; }
    }
    forall k | 0 <= k < |r| && k % 4 < 2 ensures InAlphabet(r[k]) {
      if k >= 4 { assert r[k] == rest[k - 4]; } else { assert r[k] == g[k]; }
    }
    assert r[..4] == g && r[4..] == rest;
  }

  lemma {:induction false} DecodeEncodeFrom(data: seq<byte>, i: nat)
    requires i <= |data| && i % 3 == 0
    ensures Decodable(EncodeFrom(data, i))
    ensures Decode(EncodeFrom(data, i)) == data[i..]
    decreases |data| - i
  {
    if i + 3 <= |data| {
      DecodeEncodeFrom(data, i + 3);
      DecodeGroupThen(data, i);
    } else if i < |data| {
      DecodeLastGroup(data, i);
    }
  }

  /** A whole group, then encoded text that decodes to the rest of the data. */
  lemma DecodeGroupThen(data: seq<byte>, i: nat)
    requires i + 3 <= |data|
    requires Decodable(EncodeFrom(data, i + 3)) && Decode(EncodeFrom(data, i + 3)) == data[i + 3..]
    ensures Decodable(EncodeFrom(data, i)) && Decode(EncodeFrom(data, i)) == data[i..]
  {
    var g, rest := Group(data, i), EncodeFrom(data, i + 3);
    assert EncodeFrom(data, i) == g + rest;
    GroupRoundTrip(data, i);
    DecodeFront(g, rest);
    assert data[i..] == data[i..i + 3] + data[i + 3..];
  }

  /** The last, short or whole, group on its own. */
  lemma DecodeLastGroup(data: seq<byte>, i: nat)
    requires i < |data| <= i + 3
    ensures Decodable(EncodeFrom(data, i)) && Decode(EncodeFrom(data, i)) == data[i..]
  {
    var g := Group(data, i);
    assert EncodeFrom(data, i + 3) == [];
    assert EncodeFrom(data, i) == g + [] == g;
    GroupRoundTrip(data, i);
    DecodeFront(g, []);
  }

  /** A standard decoder gives back exactly the encoded bytes. */
  lemma DecodeEncode(data: seq<byte>)
    ensures Decodable(Encode(data))
    ensures Decode(Encode(data)) == data
  {
    DecodeEncodeFrom(data, 0);
  }

  /** Nine bytes encode as three whole groups. */
  lemma NineBytes(d: seq<byte>)
    requires |d| == 9
    ensures Encode(d) == Group(d, 0) + Group(d, 3) + Group(d, 6)
  {
    assert EncodeFrom(d, 9) == [];
    assert EncodeFrom(d, 6) == Group(d, 6) + [] == Group(d, 6);
    assert EncodeFrom(d, 3) == Group(d, 3) + Group(d, 6);
    assert EncodeFrom(d, 0) == Group(d, 0) + (Group(d, 3) + Group(d, 6));
  }

  /** The credentials "user:pass" (RFC 7617, section 2) encode as "dXNlcjpwYXNz". */
  lemma UserPassExample()
    ensures Encode(Ascii("user:pass")) == Ascii("dXNlcjpwYXNz")
  {
    UserPassText();
    UserPassBytes(Ascii("user:pass"));
    EncodedText();
  }

  lemma UserPassText()
    ensures Ascii("user:pass") == [117, 115, 101, 114, 58, 112, 97, 115, 115]
  {
  }

  lemma EncodedText()
    ensures Ascii("dXNlcjpwYXNz") == [100, 88, 78, 108, 99, 106, 112, 119, 89, 88, 78, 122]
  {
  }

  lemma UserPassBytes(d: seq<byte>)
    requires d == [117, 115, 101, 114, 58, 112, 97, 115, 115]
    ensures Encode(d) == [100, 88, 78, 108, 99, 106, 112, 119, 89, 88, 78, 122]
  {
    NineBytes(d);
    GroupBytes(d, 0, 117, 115, 101, [100, 88, 78, 108]);
    GroupBytes(d, 3, 114, 58, 112, [99, 106, 112, 119]);
    GroupBytes(d, 6, 97, 115, 115, [89, 88, 78, 122]);
  }

  /** A whole group of three bytes `x`, `y`, `z`, without padding. */
  lemma GroupBytes(data: seq<byte>, i: nat, x: byte, y: byte, z: byte, g: seq<byte>)
    requires i + 3 <= |data| && data[i] == x && data[i + 1] == y && data[i + 2] == z
    requires g == [Letter(x / 4), Letter((x % 4) * 16 + y / 16), Letter((y % 16) * 4 + z / 64), Letter(z % 64)]
    ensures Group(data, i) == g
  {
  }
}
