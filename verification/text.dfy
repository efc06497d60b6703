/** Character-level helpers shared by the readers and the listing: whitespace
    trimming, the byte-wise string order used by std::string, and splitting a
    text at its line feeds. */
module Text {

  /** The characters the tagged-line reader strips: space, tab, CR and LF. */
  predicate IsSpace(c: char) {
    c == ' ' || c == '\t' || c == '\r' || c == '\n'
  }

  predicate AllSpace(s: string) {
    SpaceBetween(s, 0, |s|)
  }

  /** Every character of `s` at a position in [lo, hi) is whitespace. */
  predicate SpaceBetween(s: string, lo: nat, hi: nat)
    requires lo <= hi <= |s|
  {
    forall m | lo <= m < hi :: IsSpace(s[m])
  }

  /** Neither end of `s` is whitespace (the empty string qualifies). */
  predicate Trimmed(s: string) {
    |s| == 0 || (!IsSpace(s[0]) && !IsSpace(s[|s| - 1]))
  }

  /** Position of the first non-whitespace character, or |s| when there is none
      (find_first_not_of returning npos). */
  function FirstNonSpace(s: string): (i: nat)
    ensures i <= |s|
    ensures SpaceBetween(s, 0, i)
    ensures i < |s| ==> !IsSpace(s[i])
  {
    if |s| == 0 || !IsSpace(s[0]) then 0
    else 1 + FirstNonSpace(s[1..])
  }

  /** One past the last non-whitespace character, or 0 when there is none
      (find_last_not_of, shifted to an exclusive bound). */
  function EndOfText(s: string): (j: nat)
    ensures j <= |s|
    ensures SpaceBetween(s, j, |s|)
    ensures j > 0 ==> !IsSpace(s[j - 1])
  {
    if |s| == 0 || !IsSpace(s[|s| - 1]) then |s|
    else EndOfText(s[..|s| - 1])
  }

  /** The tagged reader's `trim`: drop leading and trailing whitespace. */
  function Trim(s: string): (r: string)
    ensures Trimmed(r)
    ensures r == "" <==> AllSpace(s)
    ensures |r| <= |s|
  {
    var i := FirstNonSpace(s);
    if i == |s| then ""
    else
      var j := EndOfText(s);
      if j <= i then
        assert false;
        ""
      else
        s[i..j]
  }

  /** Every string is its trimmed form padded with whitespace on both sides. */
  lemma TrimSplits(s: string) returns (pre: string, post: string)
    ensures AllSpace(pre) && AllSpace(post)
    ensures s == pre + Trim(s) + post
  {
    var i := FirstNonSpace(s);
    if i == |s| {
      pre, post := s, "";
      SliceSpace(s, 0, |s|);
      assert s[0..|s|] == s;
      assert Trim(s) == "";
    } else {
      var j := EndOfText(s);
      if j <= i {
        assert false;
      }
      assert Trim(s) == s[i..j];
      pre, post := s[..i], s[j..];
      SliceSpace(s, 0, i);
      SliceSpace(s, j, |s|);
      assert s[0..i] == pre && s[j..|s|] == post;
      assert s == s[..i] + s[i..j] + s[j..];
    }
  }

  /** A stretch of whitespace, cut out, is all whitespace. */
  lemma SliceSpace(s: string, lo: nat, hi: nat)
    requires lo <= hi <= |s| && SpaceBetween(s, lo, hi)
    ensures AllSpace(s[lo..hi])
  {
    var t := s[lo..hi];
    forall m | 0 <= m < |t| ensures IsSpace(t[m]) {
      assert t[m] == s[lo + m];
    }
  }

  /** FirstNonSpace is determined by its contract. */
  lemma FirstNonSpaceAt(s: string, k: nat)
    requires k <= |s| && SpaceBetween(s, 0, k)
    requires k < |s| ==> !IsSpace(s[k])
    ensures FirstNonSpace(s) == k
  {
  }

  /** EndOfText is determined by its contract. */
  lemma EndOfTextAt(s: string, k: nat)
    requires k <= |s| && SpaceBetween(s, k, |s|)
    requires k > 0 ==> !IsSpace(s[k - 1])
    ensures EndOfText(s) == k
  {
  }

  /** Trimming removes exactly the whitespace padding around a trimmed core:
      together with TrimSplits this characterises Trim completely. */
  lemma TrimOfPadded(pre: string, core: string, post: string)
    requires AllSpace(pre) && AllSpace(post) && Trimmed(core)
    ensures Trim(pre + core + post) == core
  {
    var s := pre + core + post;
    if core == "" {
      assert AllSpace(s) by {
        forall i | 0 <= i < |s| ensures IsSpace(s[i]) {
          if i < |pre| { assert s[i] == pre[i]; } else { assert s[i] == post[i - |pre|]; }
        }
      }
    } else {
      assert s[|pre|] == core[0];
      FirstNonSpaceAt(s, |pre|);
      assert s[|pre| + |core| - 1] == core[|core| - 1];
      EndOfTextAt(s, |pre| + |core|);
      assert s[|pre|..|pre| + |core|] == core;
    }
  }

  /** Trimming twice is trimming once. */
  lemma TrimIdempotent(s: string)
    ensures Trim(Trim(s)) == Trim(s)
  {
    TrimOfPadded("", Trim(s), "");
    assert "" + Trim(s) + "" == Trim(s);
  }

  /** std::string's operator<: lexicographic on characters, a proper prefix
      first. Code points compare in the same order as their UTF-8 bytes, so
      this is also the byte-wise order of the encoded strings. */
  predicate Less(a: string, b: string)
    decreases |a|
  {
    |b| > 0 && (|a| == 0 || a[0] < b[0] || (a[0] == b[0] && Less(a[1..], b[1..])))
  }

  predicate LessEq(a: string, b: string) {
    a == b || Less(a, b)
  }

  lemma {:induction false} LessIrreflexive(a: string)
    ensures !Less(a, a)
    decreases |a|
  {
    if |a| > 0 {
      LessIrreflexive(a[1..]);
    }
  }

  lemma {:induction false} LessAsymmetric(a: string, b: string)
    ensures Less(a, b) ==> !Less(b, a)
    decreases |a|
  {
    if |a| > 0 && |b| > 0 && a[0] == b[0] {
      LessAsymmetric(a[1..], b[1..]);
    }
  }

  lemma {:induction false} LessTransitive(a: string, b: string, c: string)
    requires Less(a, b) && Less(b, c)
    ensures Less(a, c)
    decreases |a|
  {
    if |a| > 0 && a[0] == b[0] && b[0] == c[0] {
      LessTransitive(a[1..], b[1..], c[1..]);
    }
  }

  lemma {:induction false} LessTotal(a: string, b: string)
    ensures a == b || Less(a, b) || Less(b, a)
    decreases |a|
  {
    if |a| > 0 && |b| > 0 && a[0] == b[0] {
      LessTotal(a[1..], b[1..]);
      if a[1..] == b[1..] {
        assert a == [a[0]] + a[1..] && b == [b[0]] + b[1..];
      }
    }
  }

  lemma LessEqAntisymmetric(a: string, b: string)
    requires LessEq(a, b) && LessEq(b, a)
    ensures a == b
  {
    LessAsymmetric(a, b);
  }

  lemma LessEqTransitive(a: string, b: string, c: string)
    requires LessEq(a, b) && LessEq(b, c)
    ensures LessEq(a, c)
  {
    if a != b && b != c {
      LessTransitive(a, b, c);
    }
  }

  /** A common prefix does not change how two strings compare. */
  lemma {:induction false} LessCommonPrefix(p: string, x: string, y: string)
    ensures Less(p + x, p + y) <==> Less(x, y)
    decreases |p|
  {
    if |p| > 0 {
      assert (p + x)[1..] == p[1..] + x;
      assert (p + y)[1..] == p[1..] + y;
      LessCommonPrefix(p[1..], x, y);
    } else {
      assert p + x == x && p + y == y;
    }
  }

  /** Position of the first occurrence of `c` in `s`. */
  function IndexOf(s: string, c: char): (i: nat)
    requires c in s
    ensures i < |s| && s[i] == c && c !in s[..i]
  {
    if s[0] == c then 0
    else
      var j := IndexOf(s[1..], c);
      assert s[..1 + j] == [s[0]] + s[1..][..j];
      1 + j
  }

  /** The pieces of `s` between its line feeds: one more piece than there are
      line feeds, none of them holding a line feed. */
  function SplitLines(s: string): (r: seq<string>)
    ensures |r| >= 1
    ensures forall k | 0 <= k < |r| :: '\n' !in r[k]
    decreases |s|
  {
    if '\n' !in s then [s]
    else
      var i := IndexOf(s, '\n');
      [s[..i]] + SplitLines(s[i + 1..])
  }

  /** `n` spaces. */
  function Spaces(n: nat): (r: string)
    ensures |r| == n && AllSpace(r)
    ensures forall i | 0 <= i < n :: r[i] == ' '
  {
    if n == 0 then "" else " " + Spaces(n - 1)
  }
}
