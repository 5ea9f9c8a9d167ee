// memcpy of kernel/lib.c, on arrays.
module Memory {
  import opened Common

  function Splice(s: seq<Byte>, at: nat, bytes: seq<Byte>): (r: seq<Byte>)
    requires at + |bytes| <= |s|
    ensures |r| == |s|
  {
    s[..at] + bytes + s[at + |bytes|..]
  }

  lemma SpliceAt(s: seq<Byte>, at: nat, bytes: seq<Byte>, i: nat)
    requires at + |bytes| <= |s| && i < |s|
    ensures Splice(s, at, bytes)[i] == if at <= i < at + |bytes| then bytes[i - at] else s[i]
  {}

  // A slice is the bytes put there, or what was there before.
  lemma SpliceSlice(s: seq<Byte>, at: nat, bytes: seq<Byte>, i: nat, j: nat)
    requires at + |bytes| <= |s| && i <= j <= |s|
    ensures i == at && j == at + |bytes| ==> Splice(s, at, bytes)[i..j] == bytes
    ensures j <= at || at + |bytes| <= i ==> Splice(s, at, bytes)[i..j] == s[i..j]
  {
    var a := Splice(s, at, bytes)[i..j];
    forall x: nat {:trigger a[x]} | x < j - i
      ensures a[x] == if at <= i + x < at + |bytes| then bytes[i + x - at] else s[i + x]
    {
      SpliceAt(s, at, bytes, i + x);
    }
  }

  predicate OverlaidAt(src: seq<Byte>, from: nat, was: seq<Byte>, now: seq<Byte>, at: nat, k: nat, i: nat) {
    i < |now| == |was| && from + k <= |src| ==> now[i] == if at <= i < at + k then src[from + (i - at)] else was[i]
  }

  // The same as a splice, byte by byte.
  ghost predicate Overlaid(src: seq<Byte>, from: nat, was: seq<Byte>, now: seq<Byte>, at: nat, k: nat) {
    && |now| == |was| && from + k <= |src|
    && forall i: nat {:trigger OverlaidAt(src, from, was, now, at, k, i)} :: OverlaidAt(src, from, was, now, at, k, i)
  }

  lemma SpliceIsOverlaid(src: seq<Byte>, from: nat, was: seq<Byte>, now: seq<Byte>, at: nat, k: nat)
    requires from + k <= |src| && at + k <= |was| && now == Splice(was, at, src[from..from + k])
    ensures Overlaid(src, from, was, now, at, k)
  {
    forall i: nat {:trigger OverlaidAt(src, from, was, now, at, k, i)} ensures OverlaidAt(src, from, was, now, at, k, i) {
      if i < |now| {
        SpliceAt(was, at, src[from..from + k], i);
      }
    }
  }

  lemma SpliceAll(s: seq<Byte>, bytes: seq<Byte>)
    requires |bytes| == |s|
    ensures Splice(s, 0, bytes) == bytes
  {}

  // Two copies one after the other are one copy.
  lemma SpliceGrows(was: seq<Byte>, now: seq<Byte>, next: seq<Byte>, at: nat, mid: nat, src: seq<Byte>, i: nat, j: nat, k: nat)
    requires i <= j <= k <= |src| && at + (k - i) <= |was| && mid == at + (j - i)
    requires now == Splice(was, at, src[i..j]) && next == Splice(now, mid, src[j..k])
    ensures next == Splice(was, at, src[i..k])
  {
    assert src[i..k] == src[i..j] + src[j..k];
  }

  method CopyBytes(src: array<Byte>, from: nat, dst: array<Byte>, at: nat, k: nat)
    requires src != dst && from + k <= src.Length && at + k <= dst.Length
    modifies dst
    ensures forall i :: 0 <= i < dst.Length ==> dst[i] == if at <= i < at + k then old(src[from + i - at]) else old(dst[i])
  {
    var i := 0;
    while i < k
      invariant i <= k
      invariant forall j :: 0 <= j < dst.Length ==> dst[j] == if at <= j < at + i then old(src[from + j - at]) else old(dst[j])
    {
      dst[at + i] := src[from + i];
      i := i + 1;
    }
  }

  // The same, on the whole contents.
  method Copy(src: array<Byte>, from: nat, dst: array<Byte>, at: nat, k: nat)
    requires src != dst && from + k <= src.Length && at + k <= dst.Length
    modifies dst
    ensures dst[..] == Splice(old(dst[..]), at, old(src[..])[from..from + k])
  {
    CopyBytes(src, from, dst, at, k);
    ghost var was, bytes := old(dst[..]), old(src[..])[from..from + k];
    forall j: nat | j < dst.Length ensures dst[..][j] == Splice(was, at, bytes)[j] {
      SpliceAt(was, at, bytes, j);
    }
  }

  method CopyOver(src: array<Byte>, from: nat, dst: array<Byte>, at: nat, k: nat)
    requires src != dst && from + k <= src.Length && at + k <= dst.Length
    modifies dst
    ensures Overlaid(src[..], from, old(dst[..]), dst[..], at, k)
  {
    ghost var was := dst[..];
    CopyBytes(src, from, dst, at, k);
    forall i: nat {:trigger OverlaidAt(src[..], from, was, dst[..], at, k, i)} ensures OverlaidAt(src[..], from, was, dst[..], at, k, i) {
    }
  }
}
