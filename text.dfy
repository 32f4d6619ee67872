/**
 * The string operations the JavaScript code applies to cell values and
 * piece titles: `String.prototype.trim`, `toLowerCase` and `includes`.
 */
module Text {

  /**
   * The characters `trim` removes: ECMAScript WhiteSpace (tab, vertical tab,
   * form feed, space, no-break space, byte-order mark and the Unicode space
   * separators) and LineTerminator (LF, CR, line and paragraph separator).
   */
  predicate IsSpace(c: char) {
    var n := c as int;
    n == 0x09 || n == 0x0A || n == 0x0B || n == 0x0C || n == 0x0D || n == 0x20
    || n == 0xA0 || n == 0x1680 || (0x2000 <= n <= 0x200A) || n == 0x2028 || n == 0x2029
    || n == 0x202F || n == 0x205F || n == 0x3000 || n == 0xFEFF
  }

  predicate AllSpace(s: string) {
    forall i | 0 <= i < |s| :: IsSpace(s[i])
  }

  /**
   * JavaScript's `s.trim()`: `s` without its leading and trailing white space,
   * removed one character at a time.
   */
  function Trim(s: string): string
    decreases |s|
  {
    if s == [] then s
    else if IsSpace(s[0]) then Trim(s[1..])
    else if IsSpace(s[|s| - 1]) then Trim(s[..|s| - 1])
    else s
  }

  /**
   * What `Trim` keeps: a contiguous piece `s[lo..hi]` with only white space
   * before and after it, and no white space at either of its ends.
   */
  lemma {:induction false} TrimIsSlice(s: string) returns (lo: nat, hi: nat)
    ensures lo <= hi <= |s| && Trim(s) == s[lo..hi]
    ensures forall k | 0 <= k < lo :: IsSpace(s[k])
    ensures forall k | hi <= k < |s| :: IsSpace(s[k])
    ensures lo < hi ==> !IsSpace(s[lo]) && !IsSpace(s[hi - 1])
    decreases |s|
  {
    if s == [] {
      lo, hi := 0, 0;
    } else if IsSpace(s[0]) {
      var t := s[1..];
      var l, h := TrimIsSlice(t);
      lo, hi := l + 1, h + 1;
      assert t[l..h] == s[lo..hi];
      forall k | 0 <= k < lo ensures IsSpace(s[k]) {
        if k > 0 { assert s[k] == t[k - 1]; }
      }
      forall k | hi <= k < |s| ensures IsSpace(s[k]) {
        assert s[k] == t[k - 1];
      }
    } else if IsSpace(s[|s| - 1]) {
      var p := s[..|s| - 1];
      var l, h := TrimIsSlice(p);
      lo, hi := l, h;
      assert p[l..h] == s[lo..hi];
      assert p[0] == s[0];
      forall k | hi <= k < |s| ensures IsSpace(s[k]) {
        if k < |p| { assert s[k] == p[k]; }
      }
    } else {
      lo, hi := 0, |s|;
      assert s[0..|s|] == s;
    }
  }

  /** A string trims to the empty string exactly when it is all white space. */
  lemma TrimEmptyIffAllSpace(s: string)
    ensures Trim(s) == "" <==> AllSpace(s)
  {
    var lo, hi := TrimIsSlice(s);
    if lo < hi {
      assert !IsSpace(s[lo]);
    }
  }

  /** A string without white space at either end is its own trim. */
  lemma TrimOfTrimmed(s: string)
    requires s == [] || (!IsSpace(s[0]) && !IsSpace(s[|s| - 1]))
    ensures Trim(s) == s
  {
  }

  /** Trimming twice is trimming once. */
  lemma TrimIdempotent(s: string)
    ensures Trim(Trim(s)) == Trim(s)
  {
    var lo, hi := TrimIsSlice(s);
    TrimOfTrimmed(s[lo..hi]);
  }

  /**
   * Lower-cases one character. Only ASCII, Latin-1, the basic Cyrillic block
   * and the extra letters of the Kazakh alphabet are mapped.
   */
  function LowerChar(c: char): char {
    var n := c as int;
    if 0x41 <= n <= 0x5A || (0xC0 <= n <= 0xDE && n != 0xD7) || 0x410 <= n <= 0x42F then
      (n + 0x20) as char
    else if 0x400 <= n <= 0x40F then
      (n + 0x50) as char
    else if n == 0x492 || n == 0x49A || n == 0x4A2 || n == 0x4AE || n == 0x4B0
         || n == 0x4BA || n == 0x4D8 || n == 0x4E8 then
      (n + 1) as char
    else
      c
  }

  /** JavaScript's `s.toLowerCase()`, character by character. */
  function Lower(s: string): string {
    seq(|s|, i requires 0 <= i < |s| => LowerChar(s[i]))
  }

  /** `sub` occurs in `s` starting at index `i`. */
  predicate OccursAt(s: string, sub: string, i: int) {
    0 <= i && i + |sub| <= |s| && s[i..i + |sub|] == sub
  }

  /** JavaScript's `s.includes(sub)`: `sub` is tried at every position of `s` in turn. */
  function Contains(s: string, sub: string): bool
    decreases |s|
  {
    if |sub| > |s| then false
    else if s[..|sub|] == sub then true
    else Contains(s[1..], sub)
  }

  /** `Contains` holds exactly when `sub` occurs somewhere in `s`. */
  lemma {:induction false} ContainsIffOccurs(s: string, sub: string)
    ensures Contains(s, sub) <==> exists i :: OccursAt(s, sub, i)
    decreases |s|
  {
    if |sub| > |s| {
    } else if s[..|sub|] == sub {
      assert OccursAt(s, sub, 0);
    } else {
      ContainsIffOccurs(s[1..], sub);
      forall i | OccursAt(s[1..], sub, i) ensures OccursAt(s, sub, i + 1) {
        assert s[i + 1..i + 1 + |sub|] == s[1..][i..i + |sub|];
      }
      forall i | OccursAt(s, sub, i) ensures i > 0 && OccursAt(s[1..], sub, i - 1) {
        assert s[1..][i - 1..i - 1 + |sub|] == s[i..i + |sub|];
      }
    }
  }

  /** The empty string is contained in every string. */
  lemma ContainsEmpty(s: string)
    ensures Contains(s, "")
  {
    assert s[..0] == "";
  }

  /** A non-empty `sub` whose first character does not occur in `s` is not contained in it. */
  lemma NotContainedWithoutFirstChar(s: string, sub: string)
    requires sub != [] && sub[0] !in s
    ensures !Contains(s, sub)
  {
    forall i | 0 <= i && i + |sub| <= |s| ensures !OccursAt(s, sub, i) {
      assert s[i..i + |sub|][0] == s[i];
    }
    ContainsIffOccurs(s, sub);
  }
}
