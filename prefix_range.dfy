/** The range end the client sends for a prefix query (app.py,
    `prefix_range_end`): the right-most byte below 0xFF is incremented and
    nothing is truncated, so the 0xFF bytes after it stay in place. */
module PrefixRange {
  import opened Wrappers
  import opened ByteOrder

  /** The largest index holding a byte below 0xFF, if there is one. */
  function LastBelowMax(p: seq<byte>): (r: Option<nat>)
    ensures r.None? <==> AllMax(p)
    ensures r.Some? ==> r.value < |p| && p[r.value] < MaxByte && MaxFrom(p, r.value + 1)
  {
    if |p| == 0 then None
    else if p[|p| - 1] < MaxByte then Some(|p| - 1)
    else LastBelowMax(p[..|p| - 1])
  }

  /** The range end for prefix `p`: same length, the last byte below 0xFF
      incremented, every other byte as it was; unchanged when there is no
      such byte (empty or all-0xFF input). */
  function PrefixRangeEnd(p: seq<byte>): (r: seq<byte>)
    ensures |r| == |p|
    ensures AllMax(p) ==> r == p
    ensures forall i :: 0 <= i < |p| && p[i] < MaxByte && MaxFrom(p, i + 1) ==> r == p[i := p[i] + 1]
  {
    match LastBelowMax(p)
    case None => p
    case Some(i) => p[i := p[i] + 1]
  }

  /** The loop of `prefix_range_end` over a copy of the key in a mutable
      buffer: walk from the last index down, increment the first byte found
      below 0xFF and stop. */
  method ComputePrefixRangeEnd(prefix: seq<byte>) returns (r: seq<byte>)
    ensures r == PrefixRangeEnd(prefix)
  {
    var s := new byte[|prefix|](k requires 0 <= k < |prefix| => prefix[k]);
    assert s[..] == prefix;
    var i := s.Length;
    while i > 0
      invariant 0 <= i <= s.Length
      invariant s[..] == prefix
      invariant MaxFrom(prefix, i)
    {
      i := i - 1;
      if s[i] < MaxByte {
        s[i] := s[i] + 1;
        break;
      }
    }
    r := s[..];
  }

  /** When some byte is below 0xFF, the key itself is strictly below its range end. */
  lemma PrefixRangeEndAbove(p: seq<byte>)
    requires !AllMax(p)
    ensures Less(p, PrefixRangeEnd(p))
  {
    var i := LastBelowMax(p).value;
    var r := PrefixRangeEnd(p);
    assert p[..i] == r[..i];
    LessAtFirstDifference(p, r, i);
  }

  /** Every key that has `p` as a prefix lies in `[p, PrefixRangeEnd(p))`. */
  lemma PrefixedKeysInRange(p: seq<byte>, s: seq<byte>)
    requires !AllMax(p) && p <= s
    ensures LessEq(p, s) && Less(s, PrefixRangeEnd(p))
  {
    PrefixIsLessEq(p, s);
    var i := LastBelowMax(p).value;
    var r := PrefixRangeEnd(p);
    assert s[..i] == p[..i] == r[..i];
    LessAtFirstDifference(s, r, i);
  }

  /** The truncating range end etcd documents for prefix queries: the last
      byte below 0xFF incremented and everything after it dropped; None when
      there is no such byte. Kept as a reference for `PrefixRangeEnd`. */
  function ExactPrefixEnd(p: seq<byte>): (r: Option<seq<byte>>)
    ensures r.None? <==> AllMax(p)
    ensures r.Some? ==> 0 < |r.value| <= |p|
  {
    if |p| == 0 then None
    else
      match ExactPrefixEnd(p[1..])
      case Some(e) => Some([p[0]] + e)
      case None => if p[0] < MaxByte then Some([p[0] + 1]) else None
  }

  /** The truncating end is fixed by the last byte below 0xFF. */
  lemma {:induction false} ExactPrefixEndAt(p: seq<byte>, i: nat)
    requires i < |p| && p[i] < MaxByte && MaxFrom(p, i + 1)
    ensures ExactPrefixEnd(p) == Some(p[..i] + [p[i] + 1])
  {
    if i == 0 {
      assert forall k :: 0 <= k < |p[1..]| ==> p[1..][k] == p[k + 1];
      assert ExactPrefixEnd(p[1..]) == None;
      assert p[..i] + [p[i] + 1] == [p[0] + 1];
    } else {
      assert p[1..][i - 1] == p[i];
      ExactPrefixEndAt(p[1..], i - 1);
      var t := p[1..][..i - 1] + [p[1..][i - 1] + 1];
      assert ExactPrefixEnd(p) == Some([p[0]] + t);
      assert [p[0]] + p[1..][..i - 1] == p[..i];
      assert [p[0]] + t == ([p[0]] + p[1..][..i - 1]) + [p[i] + 1];
    }
  }

  /** The truncating end bounds exactly the keys with prefix `p`:
      `s` extends `p` if and only if `p <= s < e`. */
  lemma {:induction false} ExactPrefixEndIsExact(p: seq<byte>, s: seq<byte>)
    requires ExactPrefixEnd(p).Some?
    ensures p <= s <==> LessEq(p, s) && Less(s, ExactPrefixEnd(p).value)
  {
    var e := ExactPrefixEnd(p).value;
    if p <= s {
      PrefixIsLessEq(p, s);
      match ExactPrefixEnd(p[1..])
      case Some(e') =>
        assert p[1..] <= s[1..];
        ExactPrefixEndIsExact(p[1..], s[1..]);
      case None =>
    }
    if p != s && LessEq(p, s) && Less(s, e) {
      assert Less(p, s);
      match ExactPrefixEnd(p[1..])
      case Some(e') =>
        assert e[0] == p[0] && e[1..] == e';
        ExactPrefixEndIsExact(p[1..], s[1..]);
      case None =>
        assert e == [p[0] + 1] && !Less(s[1..], e[1..]);
        MaxRunBelowIsPrefix(p[1..], s[1..]);
      assert p == [p[0]] + p[1..] && s == [s[0]] + s[1..];
    }
  }

  /** The end the client computes is the truncating end followed by the
      key's trailing 0xFF bytes. */
  lemma PrefixRangeEndPadsExactEnd(p: seq<byte>)
    requires !AllMax(p)
    ensures ExactPrefixEnd(p).Some?
    ensures var e := ExactPrefixEnd(p).value;
      PrefixRangeEnd(p) == e + p[|e|..] && AllMax(p[|e|..])
  {
    var i := LastBelowMax(p).value;
    ExactPrefixEndAt(p, i);
    var e := p[..i] + [p[i] + 1];
    var tail := p[i + 1..];
    assert |e| == i + 1 && p[|e|..] == tail;
    TrailingRunIsMax(p, i + 1);
    UpdateSplits(p, i, p[i] + 1);
  }

  /** The bytes from index `i` on form a run of 0xFF. */
  lemma TrailingRunIsMax(p: seq<byte>, i: nat)
    requires i <= |p| && MaxFrom(p, i)
    ensures AllMax(p[i..])
  {
    forall k | 0 <= k < |p[i..]| ensures p[i..][k] == MaxByte {
      assert p[i..][k] == p[i + k];
    }
  }

  /** Overwriting index `i` keeps what lies before and after it. */
  lemma UpdateSplits(p: seq<byte>, i: nat, v: byte)
    requires i < |p|
    ensures p[i := v] == p[..i] + [v] + p[i + 1..]
  {
  }

  /** When the key's last byte is below 0xFF the two ends coincide, so the
      client's range `[p, PrefixRangeEnd(p))` holds exactly the keys with prefix `p`. */
  lemma PrefixRangeEndExactWhenLastBelowMax(p: seq<byte>, s: seq<byte>)
    requires |p| > 0 && p[|p| - 1] < MaxByte
    ensures ExactPrefixEnd(p) == Some(PrefixRangeEnd(p))
    ensures p <= s <==> LessEq(p, s) && Less(s, PrefixRangeEnd(p))
  {
    ExactPrefixEndAt(p, |p| - 1);
    assert p[..|p| - 1] + [p[|p| - 1] + 1] == p[|p| - 1 := p[|p| - 1] + 1];
    ExactPrefixEndIsExact(p, s);
  }

  /** The client's end is not the least bound: for key "a\xff" it sends
      "b\xff", so the range also holds "b" and "b\x00", keys of the same
      length as the key and above it that do not have it as a prefix. */
  lemma TrailingMaxOverIncludes()
    ensures PrefixRangeEnd([0x61, 0xFF]) == [0x62, 0xFF]
    ensures ExactPrefixEnd([0x61, 0xFF]) == Some([0x62])
    ensures var q := [0x62, 0x00];
      |q| == 2 && !([0x61, 0xFF] <= q) && Less([0x61, 0xFF], q) && Less(q, [0x62, 0xFF])
  {
    var p: seq<byte> := [0x61, 0xFF];
    assert LastBelowMax(p) == Some(0);
    ExactPrefixEndAt(p, 0);
  }
}
