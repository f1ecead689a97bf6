/** The string operations the components rely on: ECMAScript's `String.prototype.trim`,
    the UTF-16 `length` that zod's `min(n)` checks, and the case-insensitive
    substring match of the store's `ilike '%fragment%'` filter. */
module Text {
  import Seqs

  /** The characters `trim` removes: the ECMAScript WhiteSpace and LineTerminator sets. */
  predicate IsTrimmable(c: char) {
    || c == '\t' || c == '\n' || c == '\U{000B}' || c == '\U{000C}' || c == '\r' || c == ' '
    || c == '\U{00A0}' || c == '\U{1680}' || ('\U{2000}' <= c <= '\U{200A}')
    || c == '\U{2028}' || c == '\U{2029}' || c == '\U{202F}' || c == '\U{205F}'
    || c == '\U{3000}' || c == '\U{FEFF}'
  }

  /** `s` without its leading trimmable characters. */
  function TrimStart(s: string): (r: string)
    ensures |r| <= |s| && r == s[|s| - |r|..]
    ensures forall k :: 0 <= k < |s| - |r| ==> IsTrimmable(s[k])
    ensures |r| > 0 ==> !IsTrimmable(r[0])
    decreases |s|
  {
    if |s| > 0 && IsTrimmable(s[0]) then TrimStart(s[1..]) else s
  }

  /** `s` without its trailing trimmable characters. */
  function TrimEnd(s: string): (r: string)
    ensures |r| <= |s| && r == s[..|r|]
    ensures forall k :: |r| <= k < |s| ==> IsTrimmable(s[k])
    ensures |r| > 0 ==> !IsTrimmable(r[|r| - 1])
    decreases |s|
  {
    if |s| > 0 && IsTrimmable(s[|s| - 1]) then TrimEnd(s[..|s| - 1]) else s
  }

  /** `r` is the infix of `s` starting at `i`, and every character outside it is trimmable. */
  ghost predicate CutFrom(s: string, r: string, i: int) {
    && 0 <= i <= |s| - |r|
    && r == s[i..i + |r|]
    && (forall k :: 0 <= k < i ==> IsTrimmable(s[k]))
    && (forall k :: i + |r| <= k < |s| ==> IsTrimmable(s[k]))
  }

  /** `String.prototype.trim`: the longest infix of `s` that neither starts nor ends
      with a trimmable character; everything cut off on either side is trimmable. */
  function Trim(s: string): (r: string)
    ensures exists i :: CutFrom(s, r, i)
    ensures |r| > 0 ==> !IsTrimmable(r[0]) && !IsTrimmable(r[|r| - 1])
    ensures |r| == 0 <==> forall k :: 0 <= k < |s| ==> IsTrimmable(s[k])
  {
    var t := TrimStart(s);
    var r := TrimEnd(t);
    TrimCut(s, t, r);
    r
  }

  /** Cutting leading whitespace and then trailing whitespace (the contracts of
      `TrimStart` and `TrimEnd`) cuts off exactly the whitespace at both ends. */
  lemma TrimCut(s: string, t: string, r: string)
    requires |t| <= |s| && t == s[|s| - |t|..]
    requires forall k :: 0 <= k < |s| - |t| ==> IsTrimmable(s[k])
    requires |t| > 0 ==> !IsTrimmable(t[0])
    requires |r| <= |t| && r == t[..|r|]
    requires forall k :: |r| <= k < |t| ==> IsTrimmable(t[k])
    requires |r| > 0 ==> !IsTrimmable(r[|r| - 1])
    ensures CutFrom(s, r, |s| - |t|)
    ensures |r| > 0 ==> !IsTrimmable(r[0]) && !IsTrimmable(r[|r| - 1])
    ensures |r| == 0 <==> forall k :: 0 <= k < |s| ==> IsTrimmable(s[k])
  {
    var i := |s| - |t|;
    forall k | 0 <= k < |t| ensures t[k] == s[i + k] {
    }
    forall k | 0 <= k < |r| ensures r[k] == s[i + k] {
      assert r[k] == t[k];
    }
    assert r == s[i..i + |r|];
    forall k | i + |r| <= k < |s| ensures IsTrimmable(s[k]) {
      assert s[k] == t[k - i];
    }
    if |r| > 0 {
      assert r[0] == t[0] && s[i] == r[0];
    }
  }

  /** Neither end of `s` is whitespace. */
  predicate Trimmed(s: string) {
    |s| > 0 ==> !IsTrimmable(s[0]) && !IsTrimmable(s[|s| - 1])
  }

  /** `trim` leaves a string unchanged exactly when neither end is whitespace. */
  lemma TrimmedIff(s: string)
    ensures Trimmed(s) <==> Trim(s) == s
  {
    if Trimmed(s) && |s| > 0 {
      assert TrimStart(s) == s;
      assert TrimEnd(s) == s;
    }
  }

  /** Trimming twice is trimming once. */
  lemma TrimIdempotent(s: string)
    ensures Trim(Trim(s)) == Trim(s)
  {
    var r := Trim(s);
    if |r| > 0 {
      assert TrimStart(r) == r;
      assert TrimEnd(r) == r;
    }
  }

  /** The number of UTF-16 code units of `s`, which is what JavaScript's `length`
      counts: characters outside the Basic Multilingual Plane take two. */
  function Utf16Length(s: string): (n: nat)
    ensures |s| <= n <= 2 * |s|
    ensures n == |s| <==> forall k :: 0 <= k < |s| ==> s[k] as int <= 0xFFFF
    decreases |s|
  {
    if |s| == 0 then 0
    else (if s[0] as int <= 0xFFFF then 1 else 2) + Utf16Length(s[1..])
  }

  /** Lower-cases the ASCII letters and leaves every other character alone. */
  function LowerChar(c: char): (d: char)
    ensures 'A' <= c <= 'Z' ==> d as int == c as int + 32
    ensures !('A' <= c <= 'Z') ==> d == c
    ensures !('A' <= d <= 'Z')
  {
    if 'A' <= c <= 'Z' then (c as int + 32) as char else c
  }

  function Lower(s: string): (r: string)
    ensures |r| == |s|
    ensures forall k :: 0 <= k < |s| ==> r[k] == LowerChar(s[k])
  {
    Seqs.Map(s, LowerChar)
  }

  /** `n` occurs in `h` starting at position `i`. */
  ghost predicate OccursAt(h: string, n: string, i: nat) {
    i + |n| <= |h| && h[i..i + |n|] == n
  }

  /** Substring search: does `n` occur anywhere in `h`? */
  function Contains(h: string, n: string): (b: bool)
    ensures b <==> exists i: nat :: OccursAt(h, n, i)
    decreases |h|
  {
    if |n| <= |h| && h[..|n|] == n then
      assert OccursAt(h, n, 0);
      true
    else if |h| == 0 then
      assert forall i: nat :: !OccursAt(h, n, i);
      false
    else
      var b := Contains(h[1..], n);
      assert forall i: nat :: OccursAt(h, n, i + 1) <==> OccursAt(h[1..], n, i) by {
        forall i: nat ensures OccursAt(h, n, i + 1) <==> OccursAt(h[1..], n, i) {
          if i + 1 + |n| <= |h| {
            assert h[i + 1..i + 1 + |n|] == h[1..][i..i + |n|];
          }
        }
      }
      assert !OccursAt(h, n, 0);
      assert forall i: nat :: OccursAt(h, n, i) ==> i > 0 && OccursAt(h[1..], n, i - 1);
      b
  }

  /** PostgreSQL `value ILIKE '%fragment%'` for a fragment without wildcard
      characters: case-insensitive containment, with ASCII case folding. */
  function ILikeContains(value: string, fragment: string): (b: bool)
    ensures b <==> exists i: nat :: OccursAt(Lower(value), Lower(fragment), i)
  {
    Contains(Lower(value), Lower(fragment))
  }

  lemma {:induction false} LowerIdempotent(s: string)
    ensures Lower(Lower(s)) == Lower(s)
  {
    assert forall k :: 0 <= k < |s| ==> LowerChar(LowerChar(s[k])) == LowerChar(s[k]);
  }

  /** The match ignores ASCII case on both sides. */
  lemma ILikeIgnoresCase(value: string, fragment: string)
    ensures ILikeContains(Lower(value), fragment) == ILikeContains(value, fragment)
    ensures ILikeContains(value, Lower(fragment)) == ILikeContains(value, fragment)
  {
    LowerIdempotent(value);
    LowerIdempotent(fragment);
  }
}
