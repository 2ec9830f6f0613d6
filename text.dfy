/**
 * The string operations of JavaScript that the extension relies on:
 * `toLowerCase`, `trim`, `includes`, and the white-space set they share
 * with `parseInt`.
 */
module Text {

  /** `toLowerCase` on one character; only the ASCII letters A-Z are mapped. */
  function LowerChar(c: char): char {
    if 'A' <= c <= 'Z' then (c as int + 32) as char else c
  }

  /** `String.prototype.toLowerCase`, restricted to ASCII letters. */
  function Lower(s: string): string {
    seq(|s|, i requires 0 <= i < |s| => LowerChar(s[i]))
  }

  /**
   * The characters `trim` and `parseInt` strip: the WhiteSpace and
   * LineTerminator code points of ECMAScript (TAB, LF, VT, FF, CR, SPACE,
   * NO-BREAK SPACE, the Unicode space separators, LS, PS and ZWNBSP).
   */
  predicate IsSpace(c: char) {
    var n := c as int;
    n == 0x09 || n == 0x0A || n == 0x0B || n == 0x0C || n == 0x0D || n == 0x20 ||
    n == 0xA0 || n == 0x1680 || (0x2000 <= n <= 0x200A) || n == 0x2028 || n == 0x2029 ||
    n == 0x202F || n == 0x205F || n == 0x3000 || n == 0xFEFF
  }

  predicate NoSpace(w: string) {
    forall i :: 0 <= i < |w| ==> !IsSpace(w[i])
  }

  /** Drops leading white space. */
  function TrimStart(s: string): string
    decreases |s|
  {
    if |s| > 0 && IsSpace(s[0]) then TrimStart(s[1..]) else s
  }

  /** Drops trailing white space. */
  function TrimEnd(s: string): string
    decreases |s|
  {
    if |s| > 0 && IsSpace(s[|s| - 1]) then TrimEnd(s[..|s| - 1]) else s
  }

  /** `TrimStart` removes a prefix of white space only, and all of it. */
  lemma {:induction false} TrimStartRemovesSpace(s: string)
    ensures |TrimStart(s)| <= |s| && TrimStart(s) == s[|s| - |TrimStart(s)|..]
    ensures forall i :: 0 <= i < |s| - |TrimStart(s)| ==> IsSpace(s[i])
    ensures |TrimStart(s)| > 0 ==> !IsSpace(TrimStart(s)[0])
    decreases |s|
  {
    if |s| > 0 && IsSpace(s[0]) {
      TrimStartRemovesSpace(s[1..]);
      forall i | 1 <= i < |s| - |TrimStart(s)| ensures IsSpace(s[i]) {
        assert s[1..][i - 1] == s[i];
      }
    }
  }

  /** `TrimEnd` removes a suffix of white space only, and all of it. */
  lemma {:induction false} TrimEndRemovesSpace(s: string)
    ensures |TrimEnd(s)| <= |s| && TrimEnd(s) == s[..|TrimEnd(s)|]
    ensures forall i :: |TrimEnd(s)| <= i < |s| ==> IsSpace(s[i])
    ensures |TrimEnd(s)| > 0 ==> !IsSpace(TrimEnd(s)[|TrimEnd(s)| - 1])
    decreases |s|
  {
    if |s| > 0 && IsSpace(s[|s| - 1]) {
      TrimEndRemovesSpace(s[..|s| - 1]);
      forall i | |TrimEnd(s)| <= i < |s| - 1 ensures IsSpace(s[i]) {
        assert s[..|s| - 1][i] == s[i];
      }
    }
  }

  /** `String.prototype.trim`. */
  function Trim(s: string): string {
    TrimEnd(TrimStart(s))
  }

  /** `w` occurs in `s` starting at position `k`. */
  predicate OccursAt(s: string, w: string, k: int) {
    0 <= k && k + |w| <= |s| && forall m :: 0 <= m < |w| ==> s[k + m] == w[m]
  }

  /** `s.includes(w)`: `w` occurs in `s` as a contiguous block. */
  predicate Contains(s: string, w: string)
    decreases |s|
  {
    if |s| < |w| then false else s[..|w|] == w || Contains(s[1..], w)
  }

  /** `includes` answers true exactly when the word occurs at some position. */
  lemma {:induction false} ContainsIff(s: string, w: string)
    ensures Contains(s, w) <==> exists k :: OccursAt(s, w, k)
    decreases |s|
  {
    if |s| >= |w| && |s| > 0 {
      assert s[..|w|] == w <==> OccursAt(s, w, 0) by {
        if OccursAt(s, w, 0) {
          assert forall m :: 0 <= m < |w| ==> s[..|w|][m] == w[m];
        }
      }
      ContainsIff(s[1..], w);
      if exists k :: OccursAt(s[1..], w, k) {
        var k :| OccursAt(s[1..], w, k);
        forall m | 0 <= m < |w| ensures s[k + 1 + m] == w[m] {
          assert s[1..][k + m] == w[m];
        }
        assert OccursAt(s, w, k + 1);
      }
      if exists k :: OccursAt(s, w, k) {
        var k :| OccursAt(s, w, k);
        if k > 0 {
          forall m | 0 <= m < |w| ensures s[1..][k - 1 + m] == w[m] {
            assert s[k + m] == w[m];
          }
          assert OccursAt(s[1..], w, k - 1);
        }
      }
    } else if |s| < |w| {
      assert forall k :: !OccursAt(s, w, k);
    } else {
      assert OccursAt(s, w, 0);
    }
  }

  /** `Trim(s)` is a block of `s` with only white space on either side of it. */
  lemma TrimBounds(s: string) returns (off: nat)
    ensures off + |Trim(s)| <= |s| && Trim(s) == s[off..off + |Trim(s)|]
    ensures forall i :: 0 <= i < off ==> IsSpace(s[i])
    ensures forall i :: off + |Trim(s)| <= i < |s| ==> IsSpace(s[i])
  {
    TrimStartRemovesSpace(s);
    var a := TrimStart(s);
    off := |s| - |a|;
    TrimEndRemovesSpace(a);
    var t := TrimEnd(a);
    forall i | off + |t| <= i < |s| ensures IsSpace(s[i]) {
      assert a[i - off] == s[i];
    }
  }

  /**
   * A non-empty word without white space occurs in a string exactly when it
   * occurs in the trimmed string: trimming never changes what `includes` of
   * such a word answers.
   */
  lemma ContainsTrim(s: string, w: string)
    requires |w| > 0 && NoSpace(w)
    ensures Contains(Trim(s), w) <==> Contains(s, w)
  {
    var t := Trim(s);
    var off := TrimBounds(s);
    ContainsIff(t, w);
    ContainsIff(s, w);
    if Contains(t, w) {
      var k :| OccursAt(t, w, k);
      forall m | 0 <= m < |w| ensures s[off + k + m] == w[m] {
        assert t[k + m] == s[off + k + m];
      }
      assert OccursAt(s, w, off + k);
    }
    if Contains(s, w) {
      var k :| OccursAt(s, w, k);
      // The first and last characters of the occurrence are not white space,
      // so the occurrence lies inside the trimmed block.
      assert s[k + 0] == w[0] && !IsSpace(w[0]);
      assert s[k + (|w| - 1)] == w[|w| - 1] && !IsSpace(w[|w| - 1]);
      assert off <= k && k + |w| <= off + |t|;
      forall m | 0 <= m < |w| ensures t[k - off + m] == w[m] {
        assert s[k + m] == w[m];
      }
      assert OccursAt(t, w, k - off);
    }
  }

  /** A word occurs wherever a longer word that includes it occurs. */
  lemma ContainsPart(s: string, w: string, i: nat, j: nat)
    requires i <= j <= |w| && Contains(s, w)
    ensures Contains(s, w[i..j])
  {
    ContainsIff(s, w);
    ContainsIff(s, w[i..j]);
    var k :| OccursAt(s, w, k);
    forall m | 0 <= m < j - i ensures s[k + i + m] == w[i..j][m] {
      assert s[k + (i + m)] == w[i + m];
    }
    assert OccursAt(s, w[i..j], k + i);
  }
}
