/** Cutting a sequence into consecutive blocks before every index that a predicate marks as leading. */
module Partition {
  import opened Orders

  /** The marked indices below n, in order; index 0 always leads. */
  function Cuts(lead: nat -> bool, n: nat): (r: seq<nat>)
    ensures forall i :: 0 <= i < |r| ==> r[i] < n
    ensures Increasing(r)
    ensures n > 0 ==> r != [] && r[0] == 0
  {
    if n == 0 then []
    else Cuts(lead, n - 1) + if n == 1 || lead(n - 1) then [n - 1] else []
  }

  function Count(lead: nat -> bool, n: nat): nat {
    |Cuts(lead, n)|
  }

  /** Where block b starts in a sequence of length n; past the last block, the length. */
  function Cut(lead: nat -> bool, n: nat, b: nat): (k: nat)
    ensures b < Count(lead, n) ==> k < n
    ensures b >= Count(lead, n) ==> k == n
  {
    if b < Count(lead, n) then Cuts(lead, n)[b] else n
  }

  lemma CutMonotone(lead: nat -> bool, n: nat, b: nat, c: nat)
    requires b < c && b < Count(lead, n)
    ensures Cut(lead, n, b) < Cut(lead, n, c)
  {
  }

  lemma CutNotAbove(lead: nat -> bool, n: nat, b: nat, c: nat)
    requires b <= c
    ensures Cut(lead, n, b) <= Cut(lead, n, c)
  {
  }

  /** The cuts are the leading indices, and miss none. */
  lemma {:induction false} CutsExact(lead: nat -> bool, n: nat, k: nat)
    requires k < n
    ensures k in Cuts(lead, n) <==> k == 0 || lead(k)
  {
    if k < n - 1 {
      CutsExact(lead, n - 1, k);
    }
  }

  lemma CutLeads(lead: nat -> bool, n: nat, b: nat)
    requires 0 < b < Count(lead, n)
    ensures lead(Cut(lead, n, b))
  {
    CutsExact(lead, n, Cut(lead, n, b));
    CutMonotone(lead, n, 0, b);
  }

  lemma CutAt(lead: nat -> bool, n: nat, k: nat) returns (b: nat)
    requires k < n && (k == 0 || lead(k))
    ensures b < Count(lead, n) && Cut(lead, n, b) == k
  {
    CutsExact(lead, n, k);
    b :| 0 <= b < |Cuts(lead, n)| && Cuts(lead, n)[b] == k;
  }

  /** The block that index k belongs to. */
  function BlockOf(lead: nat -> bool, k: nat): nat {
    Count(lead, k + 1) - 1
  }

  lemma {:induction false} CutsPrefix(lead: nat -> bool, n: nat, m: nat)
    requires n <= m
    ensures Cuts(lead, n) <= Cuts(lead, m)
  {
    if n < m {
      CutsPrefix(lead, n, m - 1);
    }
  }

  lemma BlockOfExact(lead: nat -> bool, n: nat, k: nat)
    requires k < n
    ensures BlockOf(lead, k) < Count(lead, n)
    ensures Cut(lead, n, BlockOf(lead, k)) <= k < Cut(lead, n, BlockOf(lead, k) + 1)
  {
    var cuts, mine, b := Cuts(lead, n), Cuts(lead, k + 1), BlockOf(lead, k);
    CutsPrefix(lead, k + 1, n);
    assert cuts[b] == mine[b];
    if b + 1 < |cuts| {
      var next := cuts[b + 1];
      assert forall i :: 0 <= i <= b ==> mine[i] == cuts[i] && cuts[i] < next;
      assert next !in mine;
      CutLeads(lead, n, b + 1);
      if next < k + 1 {
        CutsExact(lead, k + 1, next);
      }
    }
  }

  /** Only the block that spans k can claim it. */
  lemma BlockOfUnique(lead: nat -> bool, n: nat, k: nat, b: nat)
    requires k < n && Cut(lead, n, b) <= k < Cut(lead, n, b + 1)
    ensures BlockOf(lead, k) == b
  {
    var c := BlockOf(lead, k);
    BlockOfExact(lead, n, k);
    if c < b {
      CutNotAbove(lead, n, c + 1, b);
    } else if b < c {
      CutNotAbove(lead, n, b + 1, c);
    }
  }

  lemma InsideBlock(lead: nat -> bool, n: nat, b: nat, k: nat)
    requires Cut(lead, n, b) < k < Cut(lead, n, b + 1)
    ensures k < n && !lead(k)
  {
    var cuts := Cuts(lead, n);
    assert forall c :: 0 <= c <= b ==> cuts[c] <= cuts[b];
    assert forall c :: b < c < |cuts| ==> cuts[b + 1] <= cuts[c];
    assert k !in cuts;
    CutsExact(lead, n, k);
  }

  /** Block b of the sequence. */
  function Block<T>(s: seq<T>, lead: nat -> bool, b: nat): (r: seq<T>)
    requires b < Count(lead, |s|)
    ensures r != [] && r[0] == s[Cut(lead, |s|, b)]
  {
    CutMonotone(lead, |s|, b, b + 1);
    s[Cut(lead, |s|, b)..Cut(lead, |s|, b + 1)]
  }

  function Concat<T>(s: seq<T>, lead: nat -> bool, b: nat): seq<T>
    requires b <= Count(lead, |s|)
  {
    if b == 0 then [] else Concat(s, lead, b - 1) + Block(s, lead, b - 1)
  }

  lemma PrefixGrows<T>(s: seq<T>, i: nat, j: nat)
    requires i <= j <= |s|
    ensures s[..i] + s[i..j] == s[..j]
  {
  }

  lemma {:induction false} ConcatIsPrefix<T>(s: seq<T>, lead: nat -> bool, b: nat)
    requires b <= Count(lead, |s|) && s != []
    ensures Concat(s, lead, b) == s[..Cut(lead, |s|, b)]
  {
    if b > 0 {
      ConcatIsPrefix(s, lead, b - 1);
      CutMonotone(lead, |s|, b - 1, b);
      PrefixGrows(s, Cut(lead, |s|, b - 1), Cut(lead, |s|, b));
    }
  }

  /** The blocks in order give back the sequence. */
  lemma BlocksConcatenate<T>(s: seq<T>, lead: nat -> bool)
    ensures Concat(s, lead, Count(lead, |s|)) == s
  {
    if s != [] {
      ConcatIsPrefix(s, lead, Count(lead, |s|));
    }
  }
}
