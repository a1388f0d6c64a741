/**
 * The handful of Rust `str` operations the client applies to header text,
 * modelled on bytes: UTF-8 validity (`std::str::from_utf8`), `trim`,
 * `to_lowercase`/`to_uppercase`, `lines`, `split_once`, `split(..).nth(1)`,
 * `split_whitespace`, and integer parsing (`str::parse`, `from_str_radix`).
 * Whitespace and letter case are those of ASCII.
 */
module Text {
  import opened Wrappers
  import opened Bytes

  const U16_MAX: nat := 65535
  /** usize on the 64-bit targets the client is built for. */
  const USIZE_MAX: nat := 18446744073709551615

  // ---------------------------------------------------------------- UTF-8

  predicate IsCont(b: byte) { 0x80 <= b <= 0xBF }

  /** Well-formed UTF-8 (RFC 3629, section 4): what `std::str::from_utf8` accepts. */
  predicate ValidUtf8(s: seq<byte>)
    decreases |s|
  {
    if s == [] then true
    else if s[0] < 0x80 then ValidUtf8(s[1..])
    else if 0xC2 <= s[0] <= 0xDF then
      |s| >= 2 && IsCont(s[1]) && ValidUtf8(s[2..])
    else if s[0] == 0xE0 then
      |s| >= 3 && 0xA0 <= s[1] <= 0xBF && IsCont(s[2]) && ValidUtf8(s[3..])
    else if 0xE1 <= s[0] <= 0xEC || 0xEE <= s[0] <= 0xEF then
      |s| >= 3 && IsCont(s[1]) && IsCont(s[2]) && ValidUtf8(s[3..])
    else if s[0] == 0xED then
      |s| >= 3 && 0x80 <= s[1] <= 0x9F && IsCont(s[2]) && ValidUtf8(s[3..])
    else if s[0] == 0xF0 then
      |s| >= 4 && 0x90 <= s[1] <= 0xBF && IsCont(s[2]) && IsCont(s[3]) && ValidUtf8(s[4..])
    else if 0xF1 <= s[0] <= 0xF3 then
      |s| >= 4 && IsCont(s[1]) && IsCont(s[2]) && IsCont(s[3]) && ValidUtf8(s[4..])
    else if s[0] == 0xF4 then
      |s| >= 4 && 0x80 <= s[1] <= 0x8F && IsCont(s[2]) && IsCont(s[3]) && ValidUtf8(s[4..])
    else false
  }

  predicate IsAscii(s: seq<byte>)
  {
    forall i :: 0 <= i < |s| ==> s[i] < 0x80
  }

  lemma {:induction false} AsciiIsUtf8(s: seq<byte>)
    requires IsAscii(s)
    ensures ValidUtf8(s)
  {
    if s != [] {
      assert IsAscii(s[1..]) by {
        forall i | 0 <= i < |s[1..]| ensures s[1..][i] < 0x80 {
          assert s[1..][i] == s[i + 1];
        }
      }
      AsciiIsUtf8(s[1..]);
    }
  }

  // ---------------------------------------------------------- whitespace

  /** `char::is_whitespace` on the ASCII range: tab, LF, VT, FF, CR and space. */
  predicate IsSpace(b: byte)
  {
    b == 32 || 9 <= b <= 13
  }

  /** The first index from `k` on that does not hold whitespace, or the length. */
  function SkipSpaces(s: seq<byte>, k: nat): (r: nat)
    requires k <= |s|
    decreases |s| - k
    ensures k <= r <= |s| && (r < |s| ==> !IsSpace(s[r]))
    ensures forall j :: k <= j < r ==> IsSpace(s[j])
  {
    if k == |s| || !IsSpace(s[k]) then k else SkipSpaces(s, k + 1)
  }

  /** The end of `s[..k]` once its trailing whitespace is dropped. */
  function BackSpaces(s: seq<byte>, k: nat): (r: nat)
    requires k <= |s|
    ensures r <= k && (r > 0 ==> !IsSpace(s[r - 1]))
    ensures forall j :: r <= j < k ==> IsSpace(s[j])
  {
    if k == 0 || !IsSpace(s[k - 1]) then k else BackSpaces(s, k - 1)
  }

  /** From `k`, skipping blanks stops at the first non-blank `n`. */
  lemma SkipSpacesTo(s: seq<byte>, n: nat, k: nat)
    requires k <= n < |s| && !IsSpace(s[n])
    requires forall j :: k <= j < n ==> IsSpace(s[j])
    ensures SkipSpaces(s, k) == n
    decreases n - k
  {
    if k < n {
      SkipSpacesTo(s, n, k + 1);
    }
  }

  /** From `k`, dropping trailing blanks stops just after the last non-blank `m - 1`. */
  lemma BackSpacesTo(s: seq<byte>, m: nat, k: nat)
    requires 0 < m <= k <= |s| && !IsSpace(s[m - 1])
    requires forall j :: m <= j < k ==> IsSpace(s[j])
    ensures BackSpaces(s, k) == m
    decreases k - m
  {
    if m < k {
      BackSpacesTo(s, m, k - 1);
    }
  }

  /** `str::trim_start`. */
  function TrimStart(s: seq<byte>): (r: seq<byte>)
    ensures |r| <= |s|
    ensures r != [] ==> !IsSpace(r[0])
  {
    s[SkipSpaces(s, 0)..]
  }

  /** `str::trim`. */
  function Trim(s: seq<byte>): (r: seq<byte>)
    ensures |r| <= |s|
    ensures r != [] ==> !IsSpace(r[0]) && !IsSpace(r[|r| - 1])
  {
    var a := SkipSpaces(s, 0);
    if a == |s| then [] else s[a..BackSpaces(s, |s|)]
  }

  lemma TrimUnchanged(s: seq<byte>)
    requires s != [] ==> !IsSpace(s[0]) && !IsSpace(s[|s| - 1])
    ensures Trim(s) == s
  {
  }

  /** Trimming removes exactly the blanks around a word that starts and ends with a non-blank. */
  lemma TrimPadded(before: seq<byte>, word: seq<byte>, after: seq<byte>)
    requires word != [] && !IsSpace(word[0]) && !IsSpace(word[|word| - 1])
    requires forall i :: 0 <= i < |before| ==> IsSpace(before[i])
    requires forall i :: 0 <= i < |after| ==> IsSpace(after[i])
    ensures Trim(before + word + after) == word
  {
    var s := before + word + after;
    SkipSpacesTo(s, |before|, 0);
    BackSpacesTo(s, |before| + |word|, |s|);
    assert s[|before|..|before| + |word|] == word;
  }

  // ---------------------------------------------------------------- case

  /** `to_lowercase` on ASCII letters; every other byte is kept. */
  function Lower(s: seq<byte>): (r: seq<byte>)
    ensures |r| == |s|
  {
    seq(|s|, i requires 0 <= i < |s| => if 65 <= s[i] <= 90 then s[i] + 32 else s[i])
  }

  /** `to_uppercase` on ASCII letters; every other byte is kept. */
  function Upper(s: seq<byte>): (r: seq<byte>)
    ensures |r| == |s|
  {
    seq(|s|, i requires 0 <= i < |s| => if 97 <= s[i] <= 122 then s[i] - 32 else s[i])
  }

  // --------------------------------------------------------------- splits

  lemma OccursAtByte(s: seq<byte>, b: byte, k: nat)
    ensures OccursAt(s, [b], k) <==> k < |s| && s[k] == b
  {
    if k < |s| {
      assert s[k..k + 1] == [s[k]];
    }
  }

  /** `split_once(b)`: the text before the first `b` and the text after it. */
  function SplitOnce(s: seq<byte>, b: byte): (r: Option<(seq<byte>, seq<byte>)>)
    ensures r.None? <==> b !in s
    ensures r.Some? ==> s == r.value.0 + [b] + r.value.1 && b !in r.value.0
  {
    match Find(s, [b])
    case None =>
      assert b !in s by {
        forall k | 0 <= k < |s| ensures s[k] != b { OccursAtByte(s, b, k); }
      }
      None
    case Some(k) =>
      OccursAtByte(s, b, k);
      assert b !in s[..k] by {
        forall j | 0 <= j < k ensures s[j] != b { OccursAtByte(s, b, j); }
      }
      assert s == s[..k] + [b] + s[k + 1..];
      Some((s[..k], s[k + 1..]))
  }

  lemma SplitOnceAt(a: seq<byte>, b: byte, c: seq<byte>)
    requires b !in a
    ensures SplitOnce(a + [b] + c, b) == Some((a, c))
  {
    var s := a + [b] + c;
    forall j | 0 <= j < |a| ensures !OccursAt(s, [b], j) { OccursAtByte(s, b, j); }
    OccursAtByte(s, b, |a|);
    FindIs(s, [b], |a|);
    assert s[..|a|] == a && s[|a| + 1..] == c;
  }

  /** `split(b).next()`: the text before the first `b`, or all of it. */
  function FirstSegment(s: seq<byte>, b: byte): (r: seq<byte>)
    ensures b !in r && StartsWith(s, r)
    ensures b !in s ==> r == s
    ensures b in s ==> |r| < |s| && s[|r|] == b
  {
    match SplitOnce(s, b)
    case None => s
    case Some((x, _)) => x
  }

  /** Text appended after the first `b` does not change what comes before it. */
  lemma FirstSegmentExtend(s: seq<byte>, t: seq<byte>, b: byte)
    requires b in s
    ensures FirstSegment(s + t, b) == FirstSegment(s, b)
  {
    var (x, y) := SplitOnce(s, b).value;
    assert s + t == x + [b] + (y + t);
    SplitOnceAt(x, b, y + t);
  }

  /** `split(b).nth(1)`: the text between the first and the second `b`. */
  function SecondSegment(s: seq<byte>, b: byte): (r: Option<seq<byte>>)
    ensures r.Some? <==> b in s
    ensures r.Some? ==> r.value == FirstSegment(s[|FirstSegment(s, b)| + 1..], b)
  {
    match SplitOnce(s, b)
    case None => None
    case Some((_, rest)) => Some(FirstSegment(rest, b))
  }

  function StripCr(line: seq<byte>): seq<byte>
  {
    if |line| > 0 && line[|line| - 1] == CR then line[..|line| - 1] else line
  }

  /**
   * `str::lines`: pieces separated by LF, each losing one CR before its LF;
   * a final LF does not start an empty last line.
   */
  function Lines(s: seq<byte>): (r: seq<seq<byte>>)
    decreases |s|
  {
    if s == [] then []
    else
      match SplitOnce(s, LF)
      case None => [s]
      case Some((line, rest)) => [StripCr(line)] + Lines(rest)
  }

  /** A line ended by CRLF is the first line, without its CR. */
  lemma LinesCrlf(line: seq<byte>, rest: seq<byte>)
    requires LF !in line
    ensures Lines(line + CRLF + rest) == [line] + Lines(rest)
  {
    assert line + CRLF + rest == (line + [CR]) + [LF] + rest;
    SplitOnceAt(line + [CR], LF, rest);
    assert StripCr(line + [CR]) == line;
  }

  /** Text made of ASCII pieces is ASCII. */
  lemma AsciiConcat(a: seq<byte>, b: seq<byte>)
    requires IsAscii(a) && IsAscii(b)
    ensures IsAscii(a + b)
  {
  }

  /** The index of the first whitespace byte, or the length. */
  function FirstSpace(s: seq<byte>): (k: nat)
    ensures k <= |s| && (k < |s| ==> IsSpace(s[k]))
    ensures forall i :: 0 <= i < k ==> !IsSpace(s[i])
  {
    if s == [] || IsSpace(s[0]) then 0 else 1 + FirstSpace(s[1..])
  }

  /** `split_whitespace`: the maximal runs of non-whitespace bytes. */
  function Tokens(s: seq<byte>): (r: seq<seq<byte>>)
    decreases |s|
  {
    var t := TrimStart(s);
    if t == [] then []
    else
      var k := FirstSpace(t);
      assert k > 0;
      var rest := t[k..];
      assert |rest| < |s|;
      [t[..k]] + Tokens(rest)
  }

  // -------------------------------------------------------------- numbers

  /** The value of an ASCII digit or letter as `char::to_digit` reads it; 36 for anything else. */
  function DigitValue(b: byte): nat
  {
    if 48 <= b <= 57 then b - 48
    else if 97 <= b <= 122 then b - 87
    else if 65 <= b <= 90 then b - 55
    else 36
  }

  predicate AllDigits(d: seq<byte>, radix: nat)
  {
    forall i :: 0 <= i < |d| ==> DigitValue(d[i]) < radix
  }

  /** The number a string of digits denotes, most significant first. */
  function DigitsValue(d: seq<byte>, radix: nat): nat
  {
    if d == [] then 0
    else DigitsValue(d[..|d| - 1], radix) * radix + DigitValue(d[|d| - 1])
  }

  /**
   * `u16::from_str`, `usize::from_str` and `usize::from_str_radix(s, 16)`:
   * an optional `+`, then at least one digit of the radix, and a value that
   * fits the type's maximum; anything else is an error (None).
   */
  function ParseUnsigned(s: seq<byte>, radix: nat, max: nat): (r: Option<nat>)
    ensures r.Some? ==> r.value <= max
    ensures r.Some? ==> s != [] && (s[0] == 43 || DigitValue(s[0]) < radix)
  {
    if s == [] then None
    else
      var digits := if s[0] == 43 then s[1..] else s;
      if digits == [] || !AllDigits(digits, radix) then None
      else
        var v := DigitsValue(digits, radix);
        if v <= max then Some(v) else None
  }

  function DigitByte(d: nat): byte
    requires d < 16
  {
    if d < 10 then 48 + d else 87 + d
  }

  /** `format!("{}", n)` for radix 10 and `format!("{:x}", n)` for radix 16. */
  function Digits(n: nat, radix: nat): (r: seq<byte>)
    requires radix == 10 || radix == 16
    ensures r != [] && IsAscii(r) && AllDigits(r, radix)
    ensures forall i :: 0 <= i < |r| ==> !IsSpace(r[i]) && r[i] != 43 && r[i] != CR && r[i] != LF
  {
    if n < radix then [DigitByte(n)]
    else Digits(n / radix, radix) + [DigitByte(n % radix)]
  }

  function Decimal(n: nat): seq<byte>
  {
    Digits(n, 10)
  }

  lemma {:induction false} DigitsValueOf(n: nat, radix: nat)
    requires radix == 10 || radix == 16
    ensures DigitsValue(Digits(n, radix), radix) == n
  {
    var d := Digits(n, radix);
    if n >= radix {
      assert d[..|d| - 1] == Digits(n / radix, radix);
      DigitsValueOf(n / radix, radix);
    }
  }

  /** Formatting a number and parsing it back gives the number. */
  lemma ParseDigits(n: nat, radix: nat, max: nat)
    requires (radix == 10 || radix == 16) && n <= max
    ensures ParseUnsigned(Digits(n, radix), radix, max) == Some(n)
  {
    DigitsValueOf(n, radix);
  }
}
