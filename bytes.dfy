/**
 * Byte strings. Every Rust `String`, `&str`, `&[u8]` and `Vec<u8>` the client
 * handles is modelled by its bytes (for text, its UTF-8 encoding).
 */
module Bytes {
  import opened Wrappers

  type byte = x: int | 0 <= x < 256

  /** The bytes of an ASCII literal such as `b"\r\n"`; only used on ASCII text. */
  function Ascii(s: string): (r: seq<byte>)
    ensures |r| == |s|
  {
    seq(|s|, i requires 0 <= i < |s| => (s[i] as int) % 256)
  }

  lemma AsciiAppend(s: string, t: string)
    ensures Ascii(s + t) == Ascii(s) + Ascii(t)
  {
  }

  const CR: byte := 13
  const LF: byte := 10
  const CRLF: seq<byte> := [13, 10]
  /** The header terminator `\r\n\r\n`. */
  const CRLFCRLF: seq<byte> := [13, 10, 13, 10]

  predicate StartsWith(s: seq<byte>, p: seq<byte>)
  {
    |p| <= |s| && s[..|p|] == p
  }

  predicate OccursAt(s: seq<byte>, p: seq<byte>, k: nat)
  {
    k + |p| <= |s| && s[k..k + |p|] == p
  }

  /**
   * The first position at or after `k` where `p` occurs in `s`, as
   * `s.windows(|p|).position(|w| w == p)` finds it.
   */
  function FindFrom(s: seq<byte>, p: seq<byte>, k: nat): (r: Option<nat>)
    decreases |s| - k
    ensures r.Some? ==> k <= r.value && OccursAt(s, p, r.value)
    ensures r.Some? ==> forall j :: k <= j < r.value ==> !OccursAt(s, p, j)
    ensures r.None? ==> forall j :: k <= j ==> !OccursAt(s, p, j)
  {
    if k + |p| > |s| then None
    else if s[k..k + |p|] == p then Some(k)
    else FindFrom(s, p, k + 1)
  }

  function Find(s: seq<byte>, p: seq<byte>): (r: Option<nat>)
    ensures r.Some? ==> OccursAt(s, p, r.value) && forall j :: 0 <= j < r.value ==> !OccursAt(s, p, j)
    ensures r.None? ==> forall j :: 0 <= j ==> !OccursAt(s, p, j)
  {
    FindFrom(s, p, 0)
  }

  /** `windows(|p|).any(|w| w == p)`. */
  predicate Contains(s: seq<byte>, p: seq<byte>)
  {
    Find(s, p).Some?
  }

  /** A position of an occurrence that no earlier occurrence precedes is what Find returns. */
  lemma FindIs(s: seq<byte>, p: seq<byte>, k: nat)
    requires OccursAt(s, p, k)
    requires forall j :: 0 <= j < k ==> !OccursAt(s, p, j)
    ensures Find(s, p) == Some(k)
  {
  }

  /** Bytes appended after an occurrence do not move the first one. */
  lemma FindExtend(s: seq<byte>, t: seq<byte>, p: seq<byte>)
    requires Find(s, p).Some?
    ensures Find(s + t, p) == Find(s, p)
  {
    var k := Find(s, p).value;
    forall j | 0 <= j <= k ensures OccursAt(s + t, p, j) == OccursAt(s, p, j) {
      assert (s + t)[j..j + |p|] == s[j..j + |p|];
    }
    FindIs(s + t, p, k);
  }

  /** Searching `a + b` for a pattern that does not occur in (or overlap) `a` searches `b`. */
  lemma FindPastPrefix(a: seq<byte>, b: seq<byte>, p: seq<byte>)
    requires |p| > 0
    requires forall j :: 0 <= j < |a| ==> !OccursAt(a + b, p, j)
    ensures Find(a + b, p) == (match Find(b, p) case Some(k) => Some(|a| + k) case None => None)
  {
    var s := a + b;
    forall j | 0 <= j ensures OccursAt(s, p, |a| + j) == OccursAt(b, p, j) {
      if |a| + j + |p| <= |s| {
        assert s[|a| + j..|a| + j + |p|] == b[j..j + |p|];
      }
    }
    match Find(b, p)
    case Some(k) =>
      assert OccursAt(s, p, |a| + k);
      forall j | 0 <= j < |a| + k ensures !OccursAt(s, p, j) {
        if j >= |a| {
          assert OccursAt(s, p, j) == OccursAt(b, p, j - |a|);
        }
      }
      FindIs(s, p, |a| + k);
    case None =>
      forall j | 0 <= j ensures !OccursAt(s, p, j) {
        if j >= |a| {
          assert OccursAt(s, p, j) == OccursAt(b, p, j - |a|);
        }
      }
  }

  /** Appending is associative; stated once for four parts. */
  lemma Regroup(a: seq<byte>, b: seq<byte>, c: seq<byte>, d: seq<byte>)
    ensures a + b + c + d == a + (b + c + d)
  {
  }

  /** The in-order concatenation of a list of byte strings. */
  function Concat(parts: seq<seq<byte>>): (r: seq<byte>)
  {
    if parts == [] then [] else Concat(parts[..|parts| - 1]) + parts[|parts| - 1]
  }

  lemma ConcatAppend(parts: seq<seq<byte>>, last: seq<byte>)
    ensures Concat(parts + [last]) == Concat(parts) + last
  {
    assert (parts + [last])[..|parts|] == parts;
  }

  lemma {:induction false} ConcatFront(first: seq<byte>, parts: seq<seq<byte>>)
    ensures Concat([first] + parts) == first + Concat(parts)
  {
    if parts != [] {
      var init := parts[..|parts| - 1];
      var last := parts[|parts| - 1];
      assert [first] + parts == ([first] + init) + [last];
      assert parts == init + [last];
      ConcatAppend([first] + init, last);
      ConcatAppend(init, last);
      ConcatFront(first, init);
    } else {
      assert [first] + parts == [] + [first];
      ConcatAppend([], first);
    }
  }

  /** `Contains` only depends on the bytes, and an occurrence survives extension. */
  lemma ContainsExtend(a: seq<byte>, b: seq<byte>, p: seq<byte>)
    requires Contains(a, p)
    ensures Contains(a + b, p)
  {
    var k := Find(a, p).value;
    assert (a + b)[k..k + |p|] == a[k..k + |p|];
    assert OccursAt(a + b, p, k);
  }
}
