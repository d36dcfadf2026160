/** Positions in a ring, and the C library's block operations on arrays. */
module Memory {

  /** `at`, at most one lap too far, brought back below `size`. */
  function Wrap(at: nat, size: nat): nat {
    if at < size then at else at - size
  }

  lemma Regroup<T>(a: seq<T>, b: seq<T>, c: seq<T>)
    ensures (a + b) + c == a + (b + c)
  {
  }

  /** `s` with the block `d` laid over it from `at` on. */
  function Splice<T>(s: seq<T>, at: nat, d: seq<T>): (r: seq<T>)
    requires at + |d| <= |s|
    ensures |r| == |s|
  {
    s[..at] + d + s[at + |d|..]
  }

  lemma SpliceAt<T>(s: seq<T>, at: nat, d: seq<T>, i: nat)
    requires at + |d| <= |s| && i < |s|
    ensures Splice(s, at, d)[i] == if at <= i < at + |d| then d[i - at] else s[i]
  {
  }

  lemma SpliceInside<T>(s: seq<T>, at: nat, d: seq<T>)
    requires at + |d| <= |s|
    ensures Splice(s, at, d)[at..at + |d|] == d
  {
  }

  /** A block that does not meet the one written is undisturbed. */
  lemma SpliceApart<T>(s: seq<T>, at: nat, d: seq<T>, from: nat, n: nat)
    requires at + |d| <= |s| && from + n <= |s|
    requires n == 0 || |d| == 0 || at + |d| <= from || from + n <= at
    ensures Splice(s, at, d)[from..from + n] == s[from..from + n]
  {
    var r := Splice(s, at, d);
    if n > 0 && |d| > 0 {
      if at + |d| <= from {
        assert r[at + |d|..] == s[at + |d|..];
      } else {
        assert r[..at] == s[..at];
      }
    }
  }

  lemma SpliceNothing<T>(s: seq<T>, at: nat)
    requires at <= |s|
    ensures Splice(s, at, []) == s
  {
  }

  /** A block laid down in two parts. */
  lemma SpliceJoin<T>(s: seq<T>, at: nat, d: seq<T>, k: nat)
    requires at + |d| <= |s| && k <= |d|
    ensures Splice(Splice(s, at, d[..k]), at + k, d[k..]) == Splice(s, at, d)
  {
  }

  lemma SpliceOneMore<T>(s: seq<T>, at: nat, d: seq<T>, i: nat)
    requires at + |d| <= |s| && i < |d|
    ensures Splice(s, at, d[..i])[at + i := d[i]] == Splice(s, at, d[..i + 1])
  {
  }

  lemma SpliceLast<T>(s: seq<T>, at: nat, d: seq<T>, x: T)
    requires at + |d| < |s|
    ensures Splice(s, at, d)[at + |d| := x] == Splice(s, at, d + [x])
  {
  }

  lemma SpliceSingle<T>(s: seq<T>, at: nat, x: T)
    requires at < |s|
    ensures Splice(s, at, [x]) == s[at := x]
  {
  }

  /** The later of two blocks laid over the same place is the one that stays. */
  lemma SpliceOver<T>(s: seq<T>, at: nat, d: seq<T>, e: seq<T>)
    requires |d| == |e| && at + |d| <= |s|
    ensures Splice(Splice(s, at, d), at, e) == Splice(s, at, e)
  {
  }

  /** memcpy: the two ranges must not overlap. */
  method MemCopy<T>(dst: array<T>, at: nat, src: array<T>, from: nat, n: nat)
    requires at + n <= dst.Length && from + n <= src.Length
    requires dst == src ==> n == 0 || at + n <= from || from + n <= at
    modifies dst
    ensures dst[..] == Splice(old(dst[..]), at, old(src[from..from + n]))
  {
    forall i | 0 <= i < n {
      dst[at + i] := src[from + i];
    }
  }

  /** memmove: the ranges may overlap. */
  method MemMove<T>(dst: array<T>, at: nat, src: array<T>, from: nat, n: nat)
    requires at + n <= dst.Length && from + n <= src.Length
    modifies dst
    ensures dst[..] == Splice(old(dst[..]), at, old(src[from..from + n]))
  {
    forall i | 0 <= i < n {
      dst[at + i] := src[from + i];
    }
  }

  /** memcpy out of a buffer nobody writes. */
  method MemStore<T>(dst: array<T>, at: nat, data: seq<T>)
    requires at + |data| <= dst.Length
    modifies dst
    ensures dst[..] == Splice(old(dst[..]), at, data)
  {
    forall i | 0 <= i < |data| {
      dst[at + i] := data[i];
    }
  }

  lemma SpliceFront<T>(s: seq<T>, d: seq<T>)
    requires |d| <= |s|
    ensures forall k :: 0 <= k < |d| ==> Splice(s, 0, d)[k] == d[k]
  {
  }
}
