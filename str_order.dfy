/**
 * The ordering the inventory programs get from the C library's `strcmp`,
 * and the counting functions their comparison counters are measured with.
 *
 * Names and types are `seq<char>`. `StrCmp` compares two of them
 * character by character and answers with a negative, zero or positive
 * number; the C standard fixes only that sign, so the model answers
 * -1, 0 or 1.
 */
module StrOrder {

  /** Lexicographic three-way comparison standing in for `strcmp`. */
  function StrCmp(a: seq<char>, b: seq<char>): (r: int)
    ensures -1 <= r <= 1
    ensures r == 0 <==> a == b
    decreases |a|
  {
    if |a| == 0 && |b| == 0 then 0
    else if |a| == 0 then -1
    else if |b| == 0 then 1
    else if a[0] < b[0] then -1
    else if a[0] > b[0] then 1
    else
      assert a == [a[0]] + a[1..] && b == [b[0]] + b[1..];
      StrCmp(a[1..], b[1..])
  }

  /** `strcmp(a, b) <= 0`: `a` may stand before `b` in a name-sorted array. */
  predicate Le(a: seq<char>, b: seq<char>) {
    StrCmp(a, b) <= 0
  }

  /** Swapping the arguments flips the sign. */
  lemma {:induction false} StrCmpFlip(a: seq<char>, b: seq<char>)
    ensures StrCmp(b, a) == -StrCmp(a, b)
    decreases |a|
  {
    if |a| > 0 && |b| > 0 && a[0] == b[0] {
      StrCmpFlip(a[1..], b[1..]);
    }
  }

  /** `Le` is transitive. */
  lemma {:induction false} LeTrans(a: seq<char>, b: seq<char>, c: seq<char>)
    requires Le(a, b) && Le(b, c)
    ensures Le(a, c)
    decreases |a|
  {
    if |a| > 0 && |b| > 0 && |c| > 0 && a[0] == b[0] && b[0] == c[0] {
      LeTrans(a[1..], b[1..], c[1..]);
    }
  }

  /** A positive `strcmp(a, b)` (the swap test of every name sort) puts `b` before `a`. */
  lemma GtGivesLe(a: seq<char>, b: seq<char>)
    requires StrCmp(a, b) > 0
    ensures Le(b, a) && !Le(a, b)
  {
    StrCmpFlip(a, b);
  }

  /** A name strictly before `b` is not after it. */
  lemma LtNotGe(a: seq<char>, b: seq<char>)
    requires Le(a, b) && a != b
    ensures !Le(b, a)
  {
    StrCmpFlip(a, b);
  }

  /** `Le` relates any two strings one way or the other. */
  lemma LeTotal(a: seq<char>, b: seq<char>)
    ensures Le(a, b) || Le(b, a)
  {
    StrCmpFlip(a, b);
  }

  /** Strings related both ways are equal. */
  lemma LeAntisym(a: seq<char>, b: seq<char>)
    requires Le(a, b) && Le(b, a)
    ensures a == b
  {
    StrCmpFlip(a, b);
  }

  /** Non-decreasing under `strcmp` order. */
  predicate Sorted(s: seq<seq<char>>) {
    forall i, j :: 0 <= i < j < |s| ==> Le(s[i], s[j])
  }

  /** The first position of `x` in `s`, or -1: what a left-to-right scan that stops at the first match reports. */
  function IndexOf(s: seq<seq<char>>, x: seq<char>): (r: int)
    ensures -1 <= r < |s|
    ensures r >= 0 ==> s[r] == x && forall k :: 0 <= k < r ==> s[k] != x
    ensures r == -1 <==> x !in s
  {
    if |s| == 0 then -1
    else if s[0] == x then 0
    else
      var r := IndexOf(s[1..], x);
      assert s == [s[0]] + s[1..];
      if r == -1 then -1 else r + 1
  }

  // ---- counting ------------------------------------------------------------

  /** 0 + 1 + ... + m: the comparisons of m, m-1, ..., 1-element passes. */
  function Tri(m: nat): nat {
    if m == 0 then 0 else m + Tri(m - 1)
  }

  /** Closed form of `Tri`. */
  lemma {:induction false} TriClosed(m: nat)
    ensures 2 * Tri(m) == m * (m + 1)
  {
    if m > 0 {
      TriClosed(m - 1);
    }
  }

  /** Number of binary digits of n: floor(log2 n) + 1 for n >= 1, and 0 for n = 0. */
  function Bits(n: nat): nat {
    if n == 0 then 0 else 1 + Bits(n / 2)
  }

  function Pow2(k: nat): (r: nat)
    ensures r >= 1
  {
    if k == 0 then 1 else 2 * Pow2(k - 1)
  }

  /** `Bits(n) - 1` is floor(log2 n): 2^(Bits(n)-1) <= n < 2^Bits(n). */
  lemma {:induction false} BitsIsLog(n: nat)
    requires n >= 1
    ensures Bits(n) >= 1
    ensures Pow2(Bits(n) - 1) <= n < Pow2(Bits(n))
  {
    if n > 1 {
      BitsIsLog(n / 2);
    }
  }

  /** A range at least as large never needs fewer halving steps. */
  lemma {:induction false} BitsMonotone(m: nat, n: nat)
    requires m <= n
    ensures Bits(m) <= Bits(n)
  {
    if m > 0 {
      BitsMonotone(m / 2, n / 2);
    }
  }

  /**
   * One round of binary search over `[low, high]` probes `mid = (low + high) / 2`
   * and keeps one of `[mid + 1, high]` and `[low, mid - 1]`: either range needs
   * one halving step fewer than the range it came from.
   */
  lemma Halving(low: int, high: int)
    requires 0 <= low <= high
    ensures low <= (low + high) / 2 <= high
    ensures 1 + Bits(high - (low + high) / 2) <= Bits(high - low + 1)
    ensures 1 + Bits((low + high) / 2 - low) <= Bits(high - low + 1)
  {
    var mid, size := (low + high) / 2, high - low + 1;
    assert high - mid <= size / 2 && mid - low <= size / 2;
    BitsMonotone(high - mid, size / 2);
    BitsMonotone(mid - low, size / 2);
  }

  // ---- binary search -------------------------------------------------------

  /**
   * The halving search both inventory programs run by name, over the names
   * `s[low .. high]`: the index it returns (-1 once the range is empty) and
   * the number of `strcmp` calls it makes. Each round probes the middle
   * `(low + high) / 2` and keeps the half where `nome` would sort.
   */
  function BuscaBinaria(s: seq<seq<char>>, nome: seq<char>, low: int, high: int): (int, nat)
    requires 0 <= low <= high + 1 <= |s|
    decreases high - low + 1
  {
    if low > high then (-1, 0)
    else
      var mid := (low + high) / 2;
      var cmp := StrCmp(s[mid], nome);
      if cmp == 0 then (mid, 1)
      else if cmp < 0 then
        var r := BuscaBinaria(s, nome, mid + 1, high);
        (r.0, r.1 + 1)
      else
        var r := BuscaBinaria(s, nome, low, mid - 1);
        (r.0, r.1 + 1)
  }

  /** An index the search returns lies in the range and holds `nome`. */
  lemma {:induction false} BuscaBinariaAchou(s: seq<seq<char>>, nome: seq<char>, low: int, high: int)
    requires 0 <= low <= high + 1 <= |s|
    ensures var i := BuscaBinaria(s, nome, low, high).0;
      i == -1 || (low <= i <= high && s[i] == nome)
    decreases high - low + 1
  {
    if low <= high {
      var mid := (low + high) / 2;
      var cmp := StrCmp(s[mid], nome);
      if cmp < 0 {
        BuscaBinariaAchou(s, nome, mid + 1, high);
      } else if cmp > 0 {
        BuscaBinariaAchou(s, nome, low, mid - 1);
      }
    }
  }

  /** On sorted names the search misses only when no name in the range is `nome`. */
  lemma {:induction false} BuscaBinariaCompleta(s: seq<seq<char>>, nome: seq<char>, low: int, high: int)
    requires 0 <= low <= high + 1 <= |s| && Sorted(s)
    requires BuscaBinaria(s, nome, low, high).0 == -1
    ensures forall k :: low <= k <= high ==> s[k] != nome
    decreases high - low + 1
  {
    if low <= high {
      var mid := (low + high) / 2;
      var cmp := StrCmp(s[mid], nome);
      if cmp < 0 {
        BuscaBinariaCompleta(s, nome, mid + 1, high);
        LtNotGe(s[mid], nome);
        assert forall k :: low <= k <= mid ==> Le(s[k], s[mid]);
      } else {
        BuscaBinariaCompleta(s, nome, low, mid - 1);
        GtGivesLe(s[mid], nome);
        assert forall k :: mid <= k <= high ==> Le(s[mid], s[k]);
      }
    }
  }

  /** Each round halves the range: at most `Bits` of its size comparisons, and at least one when it is not empty. */
  lemma {:induction false} BuscaBinariaCusto(s: seq<seq<char>>, nome: seq<char>, low: int, high: int)
    requires 0 <= low <= high + 1 <= |s|
    ensures BuscaBinaria(s, nome, low, high).1 <= Bits(high - low + 1)
    ensures low <= high ==> 1 <= BuscaBinaria(s, nome, low, high).1
    decreases high - low + 1
  {
    if low <= high {
      var mid := (low + high) / 2;
      var cmp := StrCmp(s[mid], nome);
      Halving(low, high);
      if cmp < 0 {
        BuscaBinariaCusto(s, nome, mid + 1, high);
      } else if cmp > 0 {
        BuscaBinariaCusto(s, nome, low, mid - 1);
      }
    }
  }

  /**
   * The search over a whole list: a returned index holds `nome`; on sorted
   * names -1 means `nome` is absent; between 1 and `Bits(|s|)` comparisons
   * on a non-empty list.
   */
  lemma BuscaBinariaCorreta(s: seq<seq<char>>, nome: seq<char>)
    ensures var r := BuscaBinaria(s, nome, 0, |s| - 1);
      && (r.0 == -1 || (0 <= r.0 < |s| && s[r.0] == nome))
      && (Sorted(s) ==> (r.0 == -1 <==> nome !in s))
      && r.1 <= Bits(|s|)
      && (|s| >= 1 ==> 1 <= r.1)
  {
    var r := BuscaBinaria(s, nome, 0, |s| - 1);
    BuscaBinariaAchou(s, nome, 0, |s| - 1);
    BuscaBinariaCusto(s, nome, 0, |s| - 1);
    if Sorted(s) && r.0 == -1 {
      BuscaBinariaCompleta(s, nome, 0, |s| - 1);
    }
  }
}
