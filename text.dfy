/**
 * The parts of java.lang.String the core relies on: trim, ASCII case mapping,
 * equalsIgnoreCase, contains, UTF-16 length, and joining/splitting on a separator.
 */
module Text {

  // ---------------------------------------------------------------------------
  // trim()
  // ---------------------------------------------------------------------------

  /** `String.trim` strips every char whose code is at most U+0020. */
  predicate IsTrimmable(c: char) { c <= ' ' }

  predicate AllTrimmable(s: string) {
    forall i :: 0 <= i < |s| ==> IsTrimmable(s[i])
  }

  /** Drops the longest prefix of trimmable chars. */
  function TrimStart(s: string): string
    decreases |s|
  {
    if |s| > 0 && IsTrimmable(s[0]) then TrimStart(s[1..]) else s
  }

  /** Drops the longest suffix of trimmable chars. */
  function TrimEnd(s: string): string
    decreases |s|
  {
    if |s| > 0 && IsTrimmable(s[|s| - 1]) then TrimEnd(s[..|s| - 1]) else s
  }

  /** `String.trim`: the input with its leading and trailing trimmable chars removed. */
  function Trim(s: string): string {
    TrimEnd(TrimStart(s))
  }

  /** The prefix dropped is all trimmable, and what is left is a suffix that starts with a kept char. */
  lemma {:induction false} TrimStartFacts(s: string)
    ensures |TrimStart(s)| <= |s| && TrimStart(s) == s[|s| - |TrimStart(s)|..]
    ensures forall j :: 0 <= j < |s| - |TrimStart(s)| ==> IsTrimmable(s[j])
    ensures TrimStart(s) != [] ==> !IsTrimmable(TrimStart(s)[0])
    decreases |s|
  {
    if |s| > 0 && IsTrimmable(s[0]) {
      TrimStartFacts(s[1..]);
      assert forall j :: 1 <= j < |s| ==> s[j] == s[1..][j - 1];
    }
  }

  /** The suffix dropped is all trimmable, and what is left is a prefix that ends with a kept char. */
  lemma {:induction false} TrimEndFacts(s: string)
    ensures |TrimEnd(s)| <= |s| && TrimEnd(s) == s[..|TrimEnd(s)|]
    ensures forall j :: |TrimEnd(s)| <= j < |s| ==> IsTrimmable(s[j])
    ensures TrimEnd(s) != [] ==> !IsTrimmable(TrimEnd(s)[|TrimEnd(s)| - 1])
    decreases |s|
  {
    if |s| > 0 && IsTrimmable(s[|s| - 1]) {
      TrimEndFacts(s[..|s| - 1]);
    }
  }

  /** The trim is empty exactly for an all-trimmable string; otherwise it starts and ends with kept chars, and it occurs in the string. */
  lemma TrimFacts(s: string)
    ensures Trim(s) == [] <==> AllTrimmable(s)
    ensures Trim(s) != [] ==> !IsTrimmable(Trim(s)[0]) && !IsTrimmable(Trim(s)[|Trim(s)| - 1])
    ensures OccursAt(s, Trim(s), |s| - |TrimStart(s)|)
  {
    var m := TrimStart(s);
    var r := TrimEnd(m);
    TrimStartFacts(s);
    TrimEndFacts(m);
    SliceOfSuffix(s, m, r);
    if m != [] {
      assert s[|s| - |m|] == m[0];
      assert r != [] by {
        if r == [] {
          assert false;
        }
      }
      assert r[0] == m[0];
    }
  }

  /** A prefix of a suffix of `s` occurs in `s` where the suffix starts. */
  lemma SliceOfSuffix(s: string, m: string, r: string)
    requires |m| <= |s| && m == s[|s| - |m|..]
    requires |r| <= |m| && r == m[..|r|]
    ensures OccursAt(s, r, |s| - |m|)
  {
    var i := |s| - |m|;
    assert s[i..i + |r|] == s[i..][..|r|];
  }

  /** A string with no trimmable char at either end is its own trim. */
  lemma TrimKeeps(s: string)
    requires s != [] && !IsTrimmable(s[0]) && !IsTrimmable(s[|s| - 1])
    ensures Trim(s) == s
  {
    assert TrimStart(s) == s;
  }

  /** `s.trim().isEmpty()`: the string holds nothing but trimmable chars. */
  predicate IsBlank(s: string) { Trim(s) == [] }

  // ---------------------------------------------------------------------------
  // Case mapping (ASCII letters only)
  // ---------------------------------------------------------------------------

  function LowerChar(c: char): char {
    if 'A' <= c <= 'Z' then (c as int + 32) as char else c
  }

  function UpperChar(c: char): char {
    if 'a' <= c <= 'z' then (c as int - 32) as char else c
  }

  function ToLower(s: string): string {
    seq(|s|, i requires 0 <= i < |s| => LowerChar(s[i]))
  }

  function ToUpper(s: string): string {
    seq(|s|, i requires 0 <= i < |s| => UpperChar(s[i]))
  }

  /** Lower-casing ignores the case the keyword was typed in. */
  lemma LowerOfCaseMapped(s: string)
    ensures ToLower(ToLower(s)) == ToLower(s)
    ensures ToLower(ToUpper(s)) == ToLower(s)
  {
  }

  /** The per-char test of `String.equalsIgnoreCase` (via `regionMatches`). */
  predicate CharEqualsIgnoreCase(a: char, b: char) {
    a == b || UpperChar(a) == UpperChar(b) || LowerChar(UpperChar(a)) == LowerChar(UpperChar(b))
  }

  /** `a.equalsIgnoreCase(b)` for a non-null `b`. */
  predicate EqualsIgnoreCase(a: string, b: string) {
    |a| == |b| && forall i :: 0 <= i < |a| ==> CharEqualsIgnoreCase(a[i], b[i])
  }

  // ---------------------------------------------------------------------------
  // contains()
  // ---------------------------------------------------------------------------

  /** `k` occurs in `s` starting at index `i`. */
  predicate OccursAt(s: string, k: string, i: int) {
    0 <= i && i + |k| <= |s| && s[i..i + |k|] == k
  }

  /** `s.contains(k)`, checked by trying every start position from the left. */
  predicate Contains(s: string, k: string)
    decreases |s|
  {
    (|k| <= |s| && s[..|k|] == k) || (|s| > 0 && Contains(s[1..], k))
  }

  /** Contains holds exactly when the keyword occurs somewhere in the text. */
  lemma {:induction false} ContainsIff(s: string, k: string)
    ensures Contains(s, k) <==> exists i :: OccursAt(s, k, i)
    decreases |s|
  {
    if |k| <= |s| && s[..|k|] == k {
      assert OccursAt(s, k, 0);
    } else if |s| == 0 {
      assert forall i :: !OccursAt(s, k, i);
    } else {
      forall i | 1 <= i && OccursAt(s, k, i) ensures OccursAt(s[1..], k, i - 1) {
        assert s[1..][i - 1..i - 1 + |k|] == s[i..i + |k|];
      }
      forall i | OccursAt(s[1..], k, i) ensures OccursAt(s, k, i + 1) {
        assert s[1..][i..i + |k|] == s[i + 1..i + 1 + |k|];
      }
      assert !OccursAt(s, k, 0);
      ContainsIff(s[1..], k);
    }
  }

  // ---------------------------------------------------------------------------
  // length()
  // ---------------------------------------------------------------------------

  /** A char beyond the Basic Multilingual Plane takes two UTF-16 code units in Java. */
  function Utf16Units(c: char): nat {
    if c as int > 0xFFFF then 2 else 1
  }

  /** `String.length()`: the number of UTF-16 code units. */
  function Utf16Length(s: string): nat {
    if s == [] then 0 else Utf16Units(s[0]) + Utf16Length(s[1..])
  }

  /** Java's length lies between the number of chars and twice that. */
  lemma {:induction false} Utf16LengthBounds(s: string)
    ensures |s| <= Utf16Length(s) <= 2 * |s|
  {
    if s != [] {
      Utf16LengthBounds(s[1..]);
    }
  }

  /** On text inside the Basic Multilingual Plane, Java's length is the number of chars. */
  lemma {:induction false} Utf16LengthBmp(s: string)
    requires forall i :: 0 <= i < |s| ==> s[i] as int <= 0xFFFF
    ensures Utf16Length(s) == |s|
  {
    if s != [] {
      Utf16LengthBmp(s[1..]);
    }
  }

  // ---------------------------------------------------------------------------
  // Joining and splitting
  // ---------------------------------------------------------------------------

  /** `String.join(sep, parts)`. */
  function Join(parts: seq<string>, sep: string): string {
    if |parts| == 0 then ""
    else if |parts| == 1 then parts[0]
    else parts[0] + sep + Join(parts[1..], sep)
  }

  /** Joining one more part appends the separator and the part. */
  lemma {:induction false} JoinSnoc(parts: seq<string>, x: string, sep: string)
    requires |parts| >= 1
    ensures Join(parts + [x], sep) == Join(parts, sep) + sep + x
  {
    if |parts| == 1 {
      assert (parts + [x])[1..] == [x];
    } else {
      assert (parts + [x])[1..] == parts[1..] + [x];
      JoinSnoc(parts[1..], x, sep);
    }
  }

  predicate Excludes(s: string, d: char) {
    forall j :: 0 <= j < |s| ==> s[j] != d
  }

  /** The index of the first `d` in `s`, or -1 (`String.indexOf`). */
  function IndexOfChar(s: string, d: char): (k: int)
    ensures -1 <= k < |s|
    ensures k == -1 <==> Excludes(s, d)
    ensures k >= 0 ==> s[k] == d && forall j :: 0 <= j < k ==> s[j] != d
    decreases |s|
  {
    if |s| == 0 then -1
    else if s[0] == d then 0
    else
      var k := IndexOfChar(s[1..], d);
      if k < 0 then -1 else k + 1
  }

  /** A position holding `d` with no `d` before it is the one `indexOf` finds. */
  lemma IndexOfCharAt(s: string, d: char, k: int)
    requires 0 <= k < |s| && s[k] == d && forall j :: 0 <= j < k ==> s[j] != d
    ensures IndexOfChar(s, d) == k
  {
  }

  /** The pieces of `s` between occurrences of `d`, keeping empty pieces. */
  function Split(s: string, d: char): (r: seq<string>)
    ensures |r| >= 1
    decreases |s|
  {
    var k := IndexOfChar(s, d);
    if k < 0 then [s] else [s[..k]] + Split(s[k + 1..], d)
  }

  /** Splitting a join recovers the parts when no part contains the separator. */
  lemma {:induction false} SplitJoin(parts: seq<string>, d: char)
    requires |parts| >= 1
    requires forall i :: 0 <= i < |parts| ==> Excludes(parts[i], d)
    ensures Split(Join(parts, [d]), d) == parts
  {
    if |parts| > 1 {
      var s := Join(parts, [d]);
      var rest := Join(parts[1..], [d]);
      assert s == parts[0] + [d] + rest;
      var k := |parts[0]|;
      assert s[..k] == parts[0];
      assert s[k] == d;
      assert forall j :: 0 <= j < k ==> s[j] == parts[0][j];
      assert IndexOfChar(s, d) == k;
      assert s[k + 1..] == rest;
      SplitJoin(parts[1..], d);
    }
  }
}
