// The string functions of kernel/lib.c, on memory: a string ends at its first 0.
module Strings {
  import opened Common

  ghost predicate Terminated(mem: seq<Byte>, from: nat) {
    exists k :: from <= k < |mem| && mem[k] == 0
  }

  // The length of the string that starts at `from`.
  function Length(mem: seq<Byte>, from: nat): (n: nat)
    requires Terminated(mem, from)
    ensures from + n < |mem| && mem[from + n] == 0
    ensures forall k :: from <= k < from + n ==> mem[k] != 0
    decreases |mem| - from
  {
    if mem[from] == 0 then 0
    else
      assert Terminated(mem, from + 1);
      1 + Length(mem, from + 1)
  }

  // str_end_pos
  method StrEndPos(mem: seq<Byte>, from: nat) returns (i: nat)
    requires Terminated(mem, from)
    ensures i == from + Length(mem, from)
  {
    i := from;
    while mem[i] != 0
      invariant from <= i && Terminated(mem, i) && i + Length(mem, i) == from + Length(mem, from)
      decreases |mem| - i
    {
      assert Terminated(mem, i + 1);
      i := i + 1;
    }
  }

  // char_pos: the position after the next c of the string, 0 if there is none.
  method CharPos(mem: seq<Byte>, c: Byte, from: nat) returns (r: nat)
    requires Terminated(mem, from)
    ensures var end := from + Length(mem, from);
            if r == 0 then forall k :: from <= k < end ==> mem[k] != c
            else from < r <= end && mem[r - 1] == c && forall k :: from <= k < r - 1 ==> mem[k] != c
  {
    var i, found := from, false;
    while mem[i] != 0
      invariant from <= i <= from + Length(mem, from) && !found
      invariant forall k :: from <= k < i ==> mem[k] != c
      decreases |mem| - i
    {
      if mem[i] == c {
        found := true;
        break;
      }
      i := i + 1;
    }
    if found {
      r := i + 1;
    } else {
      r := 0;
    }
  }

  // A char is signed here.
  function Signed(b: Byte): int {
    if b < 128 then b as int else b as int - 256
  }

  // The first n bytes are the same, or both strings end before.
  ghost predicate SameUpTo(p: seq<Byte>, q: seq<Byte>, n: nat)
    requires n <= |p| && n <= |q|
  {
    exists m: nat :: m <= n && p[..m] == q[..m] && (m == n || p[m] == q[m] == 0)
  }

  // Both strings go on to m, and differ there.
  ghost predicate FirstDifference(p: seq<Byte>, q: seq<Byte>, n: nat, m: nat)
    requires n <= |p| && n <= |q|
  {
    m < n && p[..m] == q[..m] && 0 !in p[..m] && p[m] != q[m]
  }

  // The end of a string comes before any character, and characters are signed.
  predicate Before(a: Byte, b: Byte) {
    if a == 0 || b == 0 then a == 0 && b != 0 else Signed(a) < Signed(b)
  }

  // What strncmp answers for two characters where it stops.
  function Difference(a: Byte, b: Byte): int {
    if a != 0 then (if b != 0 then Signed(a) - Signed(b) else 1) else if b != 0 then -1 else 0
  }

  lemma DifferenceSign(a: Byte, b: Byte)
    ensures (Difference(a, b) == 0 <==> a == b) && (Difference(a, b) < 0 <==> Before(a, b))
  {
  }

  // strncmp
  method Strncmp(p: seq<Byte>, q: seq<Byte>, n: nat) returns (r: int)
    requires n <= |p| && n <= |q|
    ensures r == 0 <==> SameUpTo(p, q, n)
    ensures r != 0 ==> exists m: nat {:trigger p[..m]} :: FirstDifference(p, q, n, m) && (r < 0 <==> Before(p[m], q[m]))
  {
    var i, left := 0, n;
    while left > 0 && p[i] != 0 && q[i] != 0 && p[i] == q[i]
      invariant i + left == n && 0 <= i <= n
      invariant p[..i] == q[..i] && forall k :: 0 <= k < i ==> p[k] != 0
      decreases left
    {
      i := i + 1;
      left := left - 1;
    }
    r := if left > 0 then Difference(p[i], q[i]) else 0;
    if left > 0 {
      DifferenceSign(p[i], q[i]);
    }
    if r == 0 {
      assert p[..i] == q[..i] && (i == n || p[i] == q[i] == 0);
    } else {
      assert FirstDifference(p, q, n, i);
      forall m: nat {:trigger p[..m]} | m <= n ensures !(p[..m] == q[..m] && (m == n || p[m] == q[m] == 0)) {
        if m > i {
          assert p[..m][i] != q[..m][i];
        }
      }
    }
  }

  // Without a 0 in the way, that is equality of the bytes.
  lemma SameTextIff(p: seq<Byte>, q: seq<Byte>, n: nat)
    requires n <= |p| && n <= |q| && forall k :: 0 <= k < n ==> q[k] != 0
    ensures SameUpTo(p, q, n) <==> p[..n] == q[..n]
  {}
}
