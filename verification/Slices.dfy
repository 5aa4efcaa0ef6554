/** Stretches of sequences: a few facts the solver needs spelled out. */
module Slices {

  lemma Slice<T>(s: seq<T>, start: nat, len: nat, i: nat, j: nat)
    requires start + len <= |s| && i <= j <= len
    ensures s[start..start + len][i..j] == s[start + i..start + j]
  {
    var a, b := s[start..start + len][i..j], s[start + i..start + j];
    forall k | 0 <= k < |a| ensures a[k] == b[k] {
      assert a[k] == s[start..start + len][i + k];
    }
    assert a == b;
  }

  // A stretch made of three parts.
  lemma Parts<T>(s: seq<T>, start: nat, len: nat, a: seq<T>, b: seq<T>, c: seq<T>)
    requires start + len <= |s| && s[start..start + len] == a + b + c
    ensures s[start + |a|..start + |a| + |b|] == b
    ensures s[start + |a| + |b|..start + len] == c
  {
    var t := s[start..start + len];
    assert t[|a|..|a| + |b|] == b;
    assert t[|a + b|..] == c;
    Slice(s, start, len, |a|, |a| + |b|);
    Slice(s, start, len, |a| + |b|, len);
    assert t[..len] == t;
  }

  // What lies before and behind one element.
  lemma Around<T>(s: seq<T>, k: nat)
    requires k < |s|
    ensures s[..k + 1] == s[..k] + [s[k]] && s == s[..k + 1] + s[k + 1..]
  {}

  // Two neighbouring stretches.
  lemma Joined<T>(s: seq<T>, i: nat, j: nat, k: nat, a: seq<T>, b: seq<T>)
    requires i <= j <= k <= |s| && s[i..j] == a && s[j..k] == b
    ensures s[i..k] == a + b
  {}

  // The elements [after, end) have moved down to `target`.
  lemma Closed<T>(old': seq<T>, new': seq<T>, start: nat, target: nat, after: nat, end: nat)
    requires start <= target <= after <= end <= |old'|
    requires new' == old'[..target] + old'[after..end] + old'[target + (end - after)..]
    ensures |new'| == |old'|
    ensures new'[..start] == old'[..start] && new'[start..target] == old'[start..target]
    ensures new'[target..target + (end - after)] == old'[after..end]
    ensures new'[end..] == old'[end..]
  {}
}
