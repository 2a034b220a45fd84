/** Copying within and into arrays, as memcpy and memmove do. */
module CMemory {

  method Memcpy<T>(dst: array<T>, at: nat, bytes: seq<T>)
    requires at + |bytes| <= dst.Length
    modifies dst
    ensures dst[..at] == old(dst[..at]) && dst[at + |bytes|..] == old(dst[at + |bytes|..])
    ensures dst[at..at + |bytes|] == bytes
  {
    for k := 0 to |bytes|
      invariant dst[..at] == old(dst[..at])
      invariant dst[at..at + k] == bytes[..k]
      invariant dst[at + k..] == old(dst[at + k..])
    {
      dst[at + k] := bytes[k];
    }
  }

  /** The n elements at from move down to the start of the array. */
  method MoveToFront<T>(a: array<T>, from: nat, n: nat)
    requires from + n <= a.Length
    modifies a
    ensures a[..n] == old(a[from..from + n])
    ensures a[n..] == old(a[n..])
  {
    for k := 0 to n
      invariant a[..k] == old(a[from..from + k])
      invariant a[k..] == old(a[k..])
    {
      a[k] := a[from + k];
    }
  }

  method Memset<T>(a: array<T>, from: nat, n: nat, value: T)
    requires from + n <= a.Length
    modifies a
    ensures a[..from] == old(a[..from]) && a[from + n..] == old(a[from + n..])
    ensures forall k :: from <= k < from + n ==> a[k] == value
  {
    for k := 0 to n
      invariant a[..from] == old(a[..from]) && a[from + n..] == old(a[from + n..])
      invariant forall i :: from <= i < from + k ==> a[i] == value
    {
      a[from + k] := value;
    }
  }

  /** Three neighbouring stretches are one. */
  lemma Glue<T>(s: seq<T>, a: nat, b: nat, c: nat, d: nat)
    requires a <= b <= c <= d <= |s|
    ensures s[a..d] == s[a..b] + s[b..c] + s[c..d]
  {
  }

  /** A stretch inside an unchanged part is unchanged. */
  lemma Inside<T>(s: seq<T>, t: seq<T>, from: nat, to: nat, a: nat, b: nat)
    requires |s| == |t| && from <= a <= b <= to <= |s| && s[from..to] == t[from..to]
    ensures s[a..b] == t[a..b]
  {
    forall i | a <= i < b ensures s[i] == t[i] {
      assert s[i] == s[from..to][i - from] && t[i] == t[from..to][i - from];
    }
  }

  /** Equal stretches have equal beginnings. */
  lemma Shorter<T>(s: seq<T>, a: nat, t: seq<T>, b: nat, n: nat, m: nat)
    requires m <= n && a + n <= |s| && b + n <= |t| && s[a..a + n] == t[b..b + n]
    ensures s[a..a + m] == t[b..b + m]
  {
    assert s[a..a + m] == s[a..a + n][..m];
    assert t[b..b + m] == t[b..b + n][..m];
  }

  /** A stretch outside a changed part is unchanged. */
  lemma Outside<T>(s: seq<T>, t: seq<T>, from: nat, to: nat, a: nat, b: nat)
    requires |s| == |t| && from <= to <= |s| && s[..from] == t[..from] && s[to..] == t[to..]
    requires a <= b <= |s| && (a == b || b <= from || to <= a)
    ensures s[a..b] == t[a..b]
  {
    if a < b <= from {
      Inside(s, t, 0, from, a, b);
    } else if a < b {
      Inside(s, t, to, |s|, a, b);
    }
  }
}
