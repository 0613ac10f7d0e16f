/** Byte strings as the key-value store orders them: bytes are unsigned and
    keys are compared lexicographically, a proper prefix sorting first. */
module ByteOrder {

  /** An unsigned 8-bit value. */
  type byte = b: int | 0 <= b < 0x100

  const MaxByte: byte := 0xFF

  /** Every byte of `s` from index `i` on is 0xFF. */
  predicate MaxFrom(s: seq<byte>, i: nat) {
    forall k :: i <= k < |s| ==> s[k] == MaxByte
  }

  /** Every byte of `s` is 0xFF (vacuously true of the empty string). */
  predicate AllMax(s: seq<byte>) {
    MaxFrom(s, 0)
  }

  /** Strict unsigned lexicographic order: the first differing byte decides,
      and a proper prefix is smaller than any of its extensions. */
  predicate Less(a: seq<byte>, b: seq<byte>)
    decreases |a|
  {
    |b| > 0 && (|a| == 0 || a[0] < b[0] || (a[0] == b[0] && Less(a[1..], b[1..])))
  }

  predicate LessEq(a: seq<byte>, b: seq<byte>) {
    a == b || Less(a, b)
  }

  /** `a` is below `b` when they agree on the first `k` bytes and `a` either
      ends at `k` while `b` goes on, or has the smaller byte at `k`. */
  lemma {:induction false} LessAtFirstDifference(a: seq<byte>, b: seq<byte>, k: nat)
    requires k <= |a| && k < |b| && a[..k] == b[..k]
    requires k == |a| || a[k] < b[k]
    ensures Less(a, b)
  {
    if k > 0 && |a| > 0 {
      assert a[0] == a[..k][0] == b[..k][0] == b[0];
      assert a[1..][..k - 1] == a[..k][1..] == b[..k][1..] == b[1..][..k - 1];
      LessAtFirstDifference(a[1..], b[1..], k - 1);
    }
  }

  /** No byte string is below itself. */
  lemma {:induction false} LessIrreflexive(a: seq<byte>)
    ensures !Less(a, a)
  {
    if |a| > 0 {
      LessIrreflexive(a[1..]);
    }
  }

  lemma {:induction false} LessTransitive(a: seq<byte>, b: seq<byte>, c: seq<byte>)
    requires Less(a, b) && Less(b, c)
    ensures Less(a, c)
  {
    if |a| > 0 && a[0] == b[0] && b[0] == c[0] {
      LessTransitive(a[1..], b[1..], c[1..]);
    }
  }

  /** Any two byte strings are comparable: the order is total. */
  lemma {:induction false} LessTrichotomy(a: seq<byte>, b: seq<byte>)
    ensures Less(a, b) || a == b || Less(b, a)
  {
    if |a| > 0 && |b| > 0 && a[0] == b[0] {
      LessTrichotomy(a[1..], b[1..]);
      if a[1..] == b[1..] {
        assert a == [a[0]] + a[1..] && b == [b[0]] + b[1..];
      }
    }
  }

  /** A string is at most every string it is a prefix of. */
  lemma {:induction false} PrefixIsLessEq(p: seq<byte>, s: seq<byte>)
    requires p <= s
    ensures LessEq(p, s)
  {
    if p != s {
      assert |p| < |s| && s[..|p|] == p[..|p|];
      LessAtFirstDifference(p, s, |p|);
    }
  }

  /** A run of 0xFF bytes is below only the strings that extend it. */
  lemma {:induction false} MaxRunBelowIsPrefix(m: seq<byte>, t: seq<byte>)
    requires AllMax(m) && Less(m, t)
    ensures m <= t
  {
    if |m| > 0 {
      assert m[0] == MaxByte && m[0] == t[0];
      MaxRunBelowIsPrefix(m[1..], t[1..]);
      assert m == [m[0]] + m[1..] && t == [t[0]] + t[1..];
    }
  }
}
