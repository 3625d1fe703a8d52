/** The pieces of Python's `str` that the index relies on: the whitespace test
    used by `str.split()` and `str.strip()`, `strip()` itself, and
    `split(sep)` with an explicit one-character separator together with its
    inverse `sep.join(parts)`. */
module Strings {

  /** Python's `str.isspace` restricted to ASCII: tab, line feed, vertical tab,
      form feed, carriage return, the four separators 0x1C..0x1F, and space. */
  predicate IsSpace(c: char) {
    var n := c as int;
    n == 32 || 9 <= n <= 13 || 28 <= n <= 31
  }

  /** Every character of `s` passes the whitespace test `ws`. */
  predicate AllOf(s: string, ws: char -> bool) {
    forall k :: 0 <= k < |s| ==> ws(s[k])
  }

  predicate AllSpace(s: string) {
    AllOf(s, IsSpace)
  }

  /** A string that stripping `ws` leaves as it is: empty, or without such a
      character at either end. */
  predicate TrimmedOf(s: string, ws: char -> bool) {
    s == [] || (!ws(s[0]) && !ws(s[|s| - 1]))
  }

  /** A string that `strip()` leaves as it is. */
  predicate IsTrimmed(s: string) {
    TrimmedOf(s, IsSpace)
  }

  /** Stripping the characters that pass `ws`: drop them from the front,
      then from the back, until neither end passes. `str.strip()` strips
      `IsSpace`; `int()` strips a narrower set before reading a number. */
  function StripOf(s: string, ws: char -> bool): string
    decreases |s|
  {
    if |s| > 0 && ws(s[0]) then StripOf(s[1..], ws)
    else if |s| > 0 && ws(s[|s| - 1]) then StripOf(s[..|s| - 1], ws)
    else s
  }

  /** `s.strip()` */
  function Strip(s: string): string {
    StripOf(s, IsSpace)
  }

  /** The strip of `s` is trimmed, and `s` is that strip with stripped
      characters `p` before it and `q` after it. */
  lemma {:induction false} StripSpec(s: string, ws: char -> bool) returns (p: string, q: string)
    ensures TrimmedOf(StripOf(s, ws), ws)
    ensures AllOf(p, ws) && AllOf(q, ws)
    ensures s == p + StripOf(s, ws) + q
    decreases |s|
  {
    if |s| > 0 && ws(s[0]) {
      var p', q' := StripSpec(s[1..], ws);
      p, q := [s[0]] + p', q';
      AllOfConcat([s[0]], p', ws);
      assert s == [s[0]] + s[1..];
    } else if |s| > 0 && ws(s[|s| - 1]) {
      var p', q' := StripSpec(s[..|s| - 1], ws);
      p, q := p', q' + [s[|s| - 1]];
      AllOfConcat(q', [s[|s| - 1]], ws);
      assert s == s[..|s| - 1] + [s[|s| - 1]];
    } else {
      p, q := [], [];
    }
  }

  /** The characterisation behind `StripOf`: whatever stripped characters
      surround a trimmed string, stripping recovers exactly that string. */
  lemma {:induction false} StripPadded(p: string, a: string, q: string, ws: char -> bool)
    requires AllOf(p, ws) && AllOf(q, ws) && TrimmedOf(a, ws)
    ensures StripOf(p + a + q, ws) == a
    decreases |p| + |q|
  {
    var s := p + a + q;
    if |s| > 0 && ws(s[0]) {
      if p != [] {
        assert s[1..] == p[1..] + a + q;
        StripPadded(p[1..], a, q, ws);
      } else {
        assert s == a + q;
        assert a == [];
        assert s[1..] == [] + a + q[1..];
        StripPadded([], a, q[1..], ws);
      }
    } else if |s| > 0 && ws(s[|s| - 1]) {
      assert q != [];
      assert s[..|s| - 1] == p + a + q[..|q| - 1];
      StripPadded(p, a, q[..|q| - 1], ws);
    } else {
      assert p == [] && q == [];
      assert s == a;
    }
  }

  /** A trimmed string is its own strip. */
  lemma StripTrimmed(a: string, ws: char -> bool)
    requires TrimmedOf(a, ws)
    ensures StripOf(a, ws) == a
  {
  }

  /** Stripped characters added around a string do not change its strip. */
  lemma StripIgnoresPadding(p: string, t: string, q: string, ws: char -> bool)
    requires AllOf(p, ws) && AllOf(q, ws)
    ensures StripOf(p + t + q, ws) == StripOf(t, ws)
  {
    var pre, post := StripSpec(t, ws);
    var a := StripOf(t, ws);
    AllOfConcat(p, pre, ws);
    AllOfConcat(post, q, ws);
    assert p + t + q == (p + pre) + a + (post + q);
    StripPadded(p + pre, a, post + q, ws);
  }

  lemma AllOfConcat(x: string, y: string, ws: char -> bool)
    requires AllOf(x, ws) && AllOf(y, ws)
    ensures AllOf(x + y, ws)
  {
    assert forall k :: |x| <= k < |x + y| ==> (x + y)[k] == y[k - |x|];
  }

  /** Position of the first `c` in `s`. */
  function IndexOf(s: string, c: char): (k: nat)
    requires c in s
    ensures k < |s| && s[k] == c && c !in s[..k]
  {
    if s[0] == c then 0
    else
      var k := 1 + IndexOf(s[1..], c);
      assert s[..k] == [s[0]] + s[1..][..k - 1];
      k
  }

  /** `sep.join(parts)` for a one-character separator. */
  function Join(parts: seq<string>, sep: char): string
    requires |parts| >= 1
  {
    if |parts| == 1 then parts[0] else parts[0] + [sep] + Join(parts[1..], sep)
  }

  /** `s.split(sep)` for a one-character separator. */
  function SplitOn(s: string, sep: char): seq<string>
    decreases |s|
  {
    if sep !in s then [s]
    else
      var k := IndexOf(s, sep);
      [s[..k]] + SplitOn(s[k + 1..], sep)
  }

  /** `split` gives one more field than there are separators, no field
      contains the separator (fields may be empty), and joining the fields
      back with the separator gives the original string. */
  lemma {:induction false} SplitOnSpec(s: string, sep: char)
    ensures |SplitOn(s, sep)| == multiset(s)[sep] + 1
    ensures forall k :: 0 <= k < |SplitOn(s, sep)| ==> sep !in SplitOn(s, sep)[k]
    ensures Join(SplitOn(s, sep), sep) == s
    decreases |s|
  {
    if sep !in s {
      assert multiset(s)[sep] == 0;
    } else {
      var k := IndexOf(s, sep);
      var rest := SplitOn(s[k + 1..], sep);
      SplitOnSpec(s[k + 1..], sep);
      assert s == s[..k] + [sep] + s[k + 1..];
      assert multiset(s) == multiset(s[..k]) + multiset([sep]) + multiset(s[k + 1..]);
      assert multiset(s[..k])[sep] == 0;
      var parts := [s[..k]] + rest;
      assert parts[1..] == rest;
    }
  }

  /** The first field of `a + [sep] + b` is `a` when `a` holds no `sep`. */
  lemma SplitOnFirst(a: string, sep: char, b: string)
    requires sep !in a
    ensures SplitOn(a + [sep] + b, sep) == [a] + SplitOn(b, sep)
  {
    var s := a + [sep] + b;
    assert s[|a|] == sep;
    var k := IndexOf(s, sep);
    assert s[..|a|] == a;
    assert k == |a|;
    assert s[k + 1..] == b;
  }

  /** `split` undoes `join` whenever no part contains the separator. */
  lemma {:induction false} SplitJoin(parts: seq<string>, sep: char)
    requires |parts| >= 1
    requires forall k :: 0 <= k < |parts| ==> sep !in parts[k]
    ensures SplitOn(Join(parts, sep), sep) == parts
    decreases |parts|
  {
    if |parts| > 1 {
      SplitOnFirst(parts[0], sep, Join(parts[1..], sep));
      SplitJoin(parts[1..], sep);
      assert parts == [parts[0]] + parts[1..];
    }
  }
}
