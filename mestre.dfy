/**
 * The master variant's sorting and searching routines over the prefix
 * `comps[0 .. n)` of an array of tower components. Each routine counts the
 * comparisons it makes and hands the count back, as the C code does through
 * its `int *comparacoes` out-parameter.
 */
module Mestre {
  import opened StrOrder

  /** A tower component: name, type and priority (1 to 10 by convention, not enforced). */
  datatype Componente = Componente(nome: seq<char>, tipo: seq<char>, prioridade: int)

  /** The names of `s`, in order. */
  function NomesDe(s: seq<Componente>): (r: seq<seq<char>>)
    ensures |r| == |s| && forall k :: 0 <= k < |s| ==> r[k] == s[k].nome
  {
    seq(|s|, k requires 0 <= k < |s| => s[k].nome)
  }

  /** Non-decreasing by priority. */
  predicate SortedPrioridade(s: seq<Componente>) {
    forall i, j :: 0 <= i < j < |s| ==> s[i].prioridade <= s[j].prioridade
  }

  /** Exchanges `a[i]` and `a[j]` through a temporary, as all three sorts do. */
  method Swap(a: array<Componente>, i: int, j: int)
    requires 0 <= i < a.Length && 0 <= j < a.Length
    modifies a
    ensures a[..] == old(a[..])[i := old(a[j])][j := old(a[i])]
  {
    var temp := a[i];
    a[i] := a[j];
    a[j] := temp;
  }

  /** Exchanging two elements keeps the multiset. */
  lemma TrocaMultiset(s: seq<Componente>, i: nat, j: nat)
    requires i < |s| && j < |s|
    ensures multiset(s[i := s[j]][j := s[i]]) == multiset(s)
  {
  }

  /** Equal suffixes and equal multisets give equal multisets of the prefixes. */
  lemma PrefixMultiset(s: seq<Componente>, t: seq<Componente>, n: nat)
    requires |s| == |t| && n <= |s|
    requires multiset(s) == multiset(t) && s[n..] == t[n..]
    ensures multiset(s[..n]) == multiset(t[..n])
  {
    assert s == s[..n] + s[n..] && t == t[..n] + t[n..];
    assert multiset(s) == multiset(s[..n]) + multiset(s[n..]);
    assert multiset(t) == multiset(t[..n]) + multiset(t[n..]);
    forall x ensures multiset(s[..n])[x] == multiset(t[..n])[x] {
      assert multiset(s)[x] == multiset(s[..n])[x] + multiset(s[n..])[x];
      assert multiset(t)[x] == multiset(t[..n])[x] + multiset(t[n..])[x];
    }
  }

  /** Comparisons made by the first `i` rounds of a sort whose round `r` compares `n - 1 - r` pairs. */
  function Rounds(n: nat, i: nat): nat
    requires i < n
  {
    if i == 0 then 0 else Rounds(n, i - 1) + (n - i)
  }

  /** All `n - 1` rounds together make n(n-1)/2 comparisons. */
  lemma RoundsClosed(n: nat)
    requires n > 0
    ensures 2 * Rounds(n, n - 1) == n * (n - 1)
  {
    RoundsTri(n, n - 1);
    TriClosed(n - 1);
  }

  lemma {:induction false} RoundsTri(n: nat, i: nat)
    requires i < n
    ensures Rounds(n, i) + Tri(n - 1 - i) == Tri(n - 1)
  {
    if i > 0 {
      RoundsTri(n, i - 1);
    }
  }

  // ---- bubbleSortNome ------------------------------------------------------

  /** Names in `s[lo .. hi)` are in `strcmp` order. */
  ghost predicate NomesEntre(s: seq<Componente>, lo: int, hi: int)
    requires 0 <= lo && hi <= |s|
  {
    forall k, l :: lo <= k < l < hi ==> Le(s[k].nome, s[l].nome)
  }

  /** No name in `s[0 .. m)` sorts after a name in `s[m .. hi)`. */
  ghost predicate NomesSeparados(s: seq<Componente>, m: int, hi: int)
    requires 0 <= m && hi <= |s|
  {
    forall k, l :: 0 <= k < m <= l < hi ==> Le(s[k].nome, s[l].nome)
  }

  /** `s[j]` has the largest name of `s[0 .. j]`. */
  ghost predicate NomeMaximoEm(s: seq<Componente>, j: int)
    requires 0 <= j < |s|
  {
    forall k :: 0 <= k < j ==> Le(s[k].nome, s[j].nome)
  }

  /** Swapping an out-of-order pair at `j` carries the larger name forward and keeps the sorted suffix. */
  lemma PassoTroca(s: seq<Componente>, j: nat, m: nat, n: nat)
    requires j + 1 < m <= n <= |s|
    requires NomesEntre(s, m, n) && NomesSeparados(s, m, n) && NomeMaximoEm(s, j)
    requires StrCmp(s[j].nome, s[j + 1].nome) > 0
    ensures var t := s[j := s[j + 1]][j + 1 := s[j]];
      && NomesEntre(t, m, n) && NomesSeparados(t, m, n) && NomeMaximoEm(t, j + 1)
  {
    GtGivesLe(s[j].nome, s[j + 1].nome);
  }

  /** A pair already in order at `j` leaves the larger name at `j + 1`. */
  lemma PassoMantem(s: seq<Componente>, j: nat)
    requires j + 1 < |s| && NomeMaximoEm(s, j)
    requires StrCmp(s[j].nome, s[j + 1].nome) <= 0
    ensures NomeMaximoEm(s, j + 1)
  {
    forall k | 0 <= k < j
      ensures Le(s[k].nome, s[j + 1].nome)
    {
      LeTrans(s[k].nome, s[j].nome, s[j + 1].nome);
    }
  }

  /** The largest name of `s[0 .. m)` at `m - 1` extends the sorted, separated suffix by one. */
  lemma FechaPassagem(s: seq<Componente>, m: nat, n: nat)
    requires 1 <= m <= n <= |s|
    requires NomesEntre(s, m, n) && NomesSeparados(s, m, n) && NomeMaximoEm(s, m - 1)
    ensures NomesEntre(s, m - 1, n) && NomesSeparados(s, m - 1, n)
  {
  }

  /** The inner-loop body of `bubbleSortNome` at `j`: neighbours out of name order change places. */
  function Passo(s: seq<Componente>, j: nat): seq<Componente>
    requires j + 1 < |s|
  {
    if StrCmp(s[j].nome, s[j + 1].nome) > 0 then s[j := s[j + 1]][j + 1 := s[j]] else s
  }

  /** The inner loop of `bubbleSortNome` over `s[0 .. m)`, from position `j` on. */
  function Passagem(s: seq<Componente>, j: nat, m: nat): (r: seq<Componente>)
    requires j < m <= |s|
    ensures |r| == |s|
    decreases m - j
  {
    if j + 1 >= m then s else Passagem(Passo(s, j), j + 1, m)
  }

  /** The outer loop of `bubbleSortNome` on `s[0 .. n)`, from round `i` on. */
  function Bolha(s: seq<Componente>, i: nat, n: nat): (r: seq<Componente>)
    requires n <= |s|
    ensures |r| == |s|
    decreases n - i
  {
    if i + 1 >= n then s else Bolha(Passagem(s, 0, n - i), i + 1, n)
  }

  /** One inner-loop step keeps the elements. */
  lemma PassoMultiset(s: seq<Componente>, j: nat)
    requires j + 1 < |s|
    ensures multiset(Passo(s, j)) == multiset(s)
  {
    if StrCmp(s[j].nome, s[j + 1].nome) > 0 {
      TrocaMultiset(s, j, j + 1);
    }
  }

  /** A pass only exchanges elements. */
  lemma {:induction false} PassagemMultiset(s: seq<Componente>, j: nat, m: nat)
    requires j < m <= |s|
    ensures multiset(Passagem(s, j, m)) == multiset(s)
    decreases m - j
  {
    if j + 1 < m {
      PassoMultiset(s, j);
      PassagemMultiset(Passo(s, j), j + 1, m);
    }
  }

  /** A pass leaves `s[m ..]` alone. */
  lemma {:induction false} PassagemSufixo(s: seq<Componente>, j: nat, m: nat)
    requires j < m <= |s|
    ensures forall k :: m <= k < |s| ==> Passagem(s, j, m)[k] == s[k]
    decreases m - j
  {
    if j + 1 < m {
      PassagemSufixo(Passo(s, j), j + 1, m);
    }
  }

  /**
   * A pass started at `j` with the largest name of `s[0 .. j]` at `j` ends
   * with the largest name of `s[0 .. m)` at `m - 1`, which extends the
   * sorted suffix `s[m .. n)` by one place.
   */
  lemma {:induction false} PassagemLeva(s: seq<Componente>, j: nat, m: nat, n: nat)
    requires j < m <= n <= |s|
    requires NomesEntre(s, m, n) && NomesSeparados(s, m, n) && NomeMaximoEm(s, j)
    ensures NomesEntre(Passagem(s, j, m), m - 1, n) && NomesSeparados(Passagem(s, j, m), m - 1, n)
    decreases m - j
  {
    if j + 1 >= m {
      FechaPassagem(s, m, n);
    } else {
      var t := Passo(s, j);
      if StrCmp(s[j].nome, s[j + 1].nome) > 0 {
        PassoTroca(s, j, m, n);
        assert t == s[j := s[j + 1]][j + 1 := s[j]];
      } else {
        PassoMantem(s, j);
        assert t == s;
      }
      PassagemLeva(t, j + 1, m, n);
      assert Passagem(s, j, m) == Passagem(t, j + 1, m);
    }
  }

  /** Rounds `i` onwards sort `s[0 .. n)` when `s[n - i .. n)` is sorted and no name before it sorts after it. */
  lemma {:induction false} BolhaOrdena(s: seq<Componente>, i: nat, n: nat)
    requires i <= n <= |s|
    requires NomesEntre(s, n - i, n) && NomesSeparados(s, n - i, n)
    ensures NomesEntre(Bolha(s, i, n), 0, n)
    decreases n - i
  {
    if i + 1 < n {
      var m := n - i;
      PassagemLeva(s, 0, m, n);
      assert n - (i + 1) == m - 1;
      BolhaOrdena(Passagem(s, 0, m), i + 1, n);
    }
  }

  /** Rounds `i` onwards keep the elements. */
  lemma {:induction false} BolhaMultiset(s: seq<Componente>, i: nat, n: nat)
    requires n <= |s|
    ensures multiset(Bolha(s, i, n)) == multiset(s)
    decreases n - i
  {
    if i + 1 < n {
      PassagemMultiset(s, 0, n - i);
      BolhaMultiset(Passagem(s, 0, n - i), i + 1, n);
    }
  }

  /** Rounds `i` onwards leave `s[n ..]` alone. */
  lemma {:induction false} BolhaSufixo(s: seq<Componente>, i: nat, n: nat)
    requires n <= |s|
    ensures forall k :: n <= k < |s| ==> Bolha(s, i, n)[k] == s[k]
    decreases n - i
  {
    if i + 1 < n {
      PassagemSufixo(s, 0, n - i);
      BolhaSufixo(Passagem(s, 0, n - i), i + 1, n);
    }
  }

  /** `Bolha` from round 0 name-sorts `s[0 .. n)`, keeping its elements and leaving `s[n ..]` alone. */
  lemma BubbleSortCorreto(s: seq<Componente>, n: nat)
    requires n <= |s|
    ensures Sorted(NomesDe(Bolha(s, 0, n)[..n]))
    ensures multiset(Bolha(s, 0, n)[..n]) == multiset(s[..n])
    ensures Bolha(s, 0, n)[n..] == s[n..]
  {
    var r := Bolha(s, 0, n);
    BolhaOrdena(s, 0, n);
    BolhaMultiset(s, 0, n);
    BolhaSufixo(s, 0, n);
    assert r[n..] == s[n..];
    PrefixMultiset(r, s, n);
  }

  /**
   * Round `i` of the outer loop of `bubbleSortNome`: `n - i - 1` comparisons
   * of neighbours in `a[0 .. n - i)`, swapping a pair whose left name sorts
   * after the right one.
   */
  method PassagemNome(a: array<Componente>, n: nat, i: nat, c0: nat) returns (c: nat)
    requires i + 1 < n <= a.Length
    modifies a
    ensures a[..] == Passagem(old(a[..]), 0, n - i)
    ensures c == c0 + (n - i - 1)
  {
    c := c0;
    var j := 0;
    while j < n - i - 1
      invariant 0 <= j <= n - i - 1
      invariant c == c0 + j
      invariant Passagem(a[..], j, n - i) == Passagem(old(a[..]), 0, n - i)
    {
      c := c + 1;
      ghost var s := a[..];
      if StrCmp(a[j].nome, a[j + 1].nome) > 0 {
        Swap(a, j, j + 1);
      }
      assert a[..] == Passo(s, j);
      j := j + 1;
    }
  }

  /**
   * `bubbleSortNome`: sorts `a[0 .. n)` by name and makes exactly
   * n(n-1)/2 comparisons, whatever the input order.
   */
  method BubbleSortNome(a: array<Componente>, n: nat) returns (comparacoes: nat)
    requires n <= a.Length
    modifies a
    ensures a[..] == Bolha(old(a[..]), 0, n)
    ensures 2 * comparacoes == n * (n - 1)
  {
    comparacoes := 0;
    var i := 0;
    while i < n - 1
      invariant 0 <= i <= n
      invariant n > 0 ==> i < n && comparacoes == Rounds(n, i)
      invariant n == 0 ==> comparacoes == 0
      invariant Bolha(a[..], i, n) == Bolha(old(a[..]), 0, n)
    {
      comparacoes := PassagemNome(a, n, i, comparacoes);
      i := i + 1;
    }
    if n > 0 {
      RoundsClosed(n);
    }
  }

  // ---- insertionSortTipo ---------------------------------------------------

  /** Non-decreasing by type under `strcmp` order. */
  predicate SortedTipo(s: seq<Componente>) {
    forall i, j :: 0 <= i < j < |s| ==> Le(s[i].tipo, s[j].tipo)
  }

  /** No type in `s` sorts after `t`. */
  predicate TiposAte(s: seq<Componente>, t: seq<char>) {
    forall k :: 0 <= k < |s| ==> Le(s[k].tipo, t)
  }

  /**
   * Where one outer step of `insertionSortTipo` puts the key `x` in the
   * prefix `s`: it moves left past every element whose type sorts strictly
   * after its own and stops behind the first one that does not.
   */
  function PosInsere(s: seq<Componente>, x: Componente): (p: nat)
    ensures p <= |s|
  {
    if |s| == 0 then 0
    else if StrCmp(s[|s| - 1].tipo, x.tipo) > 0 then PosInsere(s[..|s| - 1], x)
    else |s|
  }

  /** The prefix after that step: the key at `PosInsere`, the elements it passed moved one place right. */
  function Insere(s: seq<Componente>, x: Componente): (r: seq<Componente>)
    ensures |r| == |s| + 1
  {
    var p := PosInsere(s, x);
    s[..p] + [x] + s[p..]
  }

  /** The insertion step seen from the last element of `s`: passed over, or the one the key stops behind. */
  lemma InsereRecursao(s: seq<Componente>, x: Componente)
    requires |s| > 0
    ensures StrCmp(s[|s| - 1].tipo, x.tipo) > 0 ==> Insere(s, x) == Insere(s[..|s| - 1], x) + [s[|s| - 1]]
    ensures StrCmp(s[|s| - 1].tipo, x.tipo) <= 0 ==> Insere(s, x) == s + [x]
  {
    var q := s[..|s| - 1];
    var p := PosInsere(q, x);
    if StrCmp(s[|s| - 1].tipo, x.tipo) > 0 {
      assert s[..p] == q[..p] && s[p..] == q[p..] + [s[|s| - 1]];
    } else {
      assert s[..|s|] == s;
    }
  }

  /**
   * The comparisons that step makes: one per element shifted, plus the one
   * that stops the scan unless the key reaches the front.
   */
  function CustoInsere(s: seq<Componente>, x: Componente): nat {
    if |s| == 0 then 0
    else if StrCmp(s[|s| - 1].tipo, x.tipo) > 0 then 1 + CustoInsere(s[..|s| - 1], x)
    else 1
  }

  /** The result of `insertionSortTipo`: each element in turn inserted into the sorted prefix before it. */
  function InsertionSort(s: seq<Componente>): (r: seq<Componente>)
    ensures |r| == |s|
  {
    if |s| == 0 then [] else Insere(InsertionSort(s[..|s| - 1]), s[|s| - 1])
  }

  /** The comparisons `insertionSortTipo` makes on `s`. */
  function CustoInsertionSort(s: seq<Componente>): nat {
    if |s| == 0 then 0
    else CustoInsertionSort(s[..|s| - 1]) + CustoInsere(InsertionSort(s[..|s| - 1]), s[|s| - 1])
  }

  /** Inserting adds exactly the key. */
  lemma {:induction false} InsereMultiset(s: seq<Componente>, x: Componente)
    ensures multiset(Insere(s, x)) == multiset(s) + multiset{x}
  {
    if |s| > 0 {
      InsereRecursao(s, x);
      assert s == s[..|s| - 1] + [s[|s| - 1]];
      if StrCmp(s[|s| - 1].tipo, x.tipo) > 0 {
        InsereMultiset(s[..|s| - 1], x);
      }
    } else {
      assert Insere(s, x) == [x];
    }
  }

  /** A bound on every type of `s` and on the key bounds every type after the insertion. */
  lemma {:induction false} InsereLimitado(s: seq<Componente>, x: Componente, t: seq<char>)
    requires TiposAte(s, t) && Le(x.tipo, t)
    ensures TiposAte(Insere(s, x), t)
  {
    if |s| > 0 {
      InsereRecursao(s, x);
      if StrCmp(s[|s| - 1].tipo, x.tipo) > 0 {
        InsereLimitado(s[..|s| - 1], x, t);
      }
    } else {
      assert Insere(s, x) == [x];
    }
  }

  /** Inserting into a type-sorted sequence keeps it sorted. */
  lemma {:induction false} InsereOrdena(s: seq<Componente>, x: Componente)
    requires SortedTipo(s)
    ensures SortedTipo(Insere(s, x))
  {
    if |s| > 0 {
      var p, u := s[..|s| - 1], s[|s| - 1];
      InsereRecursao(s, x);
      if StrCmp(u.tipo, x.tipo) > 0 {
        GtGivesLe(u.tipo, x.tipo);
        InsereOrdena(p, x);
        InsereLimitado(p, x, u.tipo);
      } else {
        forall k | 0 <= k < |s|
          ensures Le(s[k].tipo, x.tipo)
        {
          LeTrans(s[k].tipo, u.tipo, x.tipo);
        }
      }
    } else {
      assert Insere(s, x) == [x];
    }
  }

  /** `InsertionSort` gives a type-sorted permutation of its input. */
  lemma {:induction false} InsertionSortCorreto(s: seq<Componente>)
    ensures SortedTipo(InsertionSort(s))
    ensures multiset(InsertionSort(s)) == multiset(s)
  {
    if |s| > 0 {
      var p := s[..|s| - 1];
      InsertionSortCorreto(p);
      InsereOrdena(InsertionSort(p), s[|s| - 1]);
      InsereMultiset(InsertionSort(p), s[|s| - 1]);
      assert s == p + [s[|s| - 1]];
    }
  }

  /** The elements of `s` whose type is `t`, in their order in `s`. */
  function MesmoTipo(s: seq<Componente>, t: seq<char>): seq<Componente> {
    if |s| == 0 then []
    else MesmoTipo(s[..|s| - 1], t) + (if s[|s| - 1].tipo == t then [s[|s| - 1]] else [])
  }

  lemma {:induction false} MesmoTipoConcat(a: seq<Componente>, b: seq<Componente>, t: seq<char>)
    ensures MesmoTipo(a + b, t) == MesmoTipo(a, t) + MesmoTipo(b, t)
    decreases |b|
  {
    if |b| > 0 {
      assert (a + b)[..|a + b| - 1] == a + b[..|b| - 1];
      assert (a + b)[|a + b| - 1] == b[|b| - 1];
      MesmoTipoConcat(a, b[..|b| - 1], t);
    } else {
      assert a + b == a;
    }
  }

  /** An insertion step puts the key behind every element of the same type. */
  lemma {:induction false} InsereEstavel(s: seq<Componente>, x: Componente, t: seq<char>)
    ensures MesmoTipo(Insere(s, x), t) == MesmoTipo(s, t) + MesmoTipo([x], t)
  {
    if |s| > 0 {
      var p, u := s[..|s| - 1], s[|s| - 1];
      InsereRecursao(s, x);
      assert s == p + [u];
      MesmoTipoConcat(p, [u], t);
      if StrCmp(u.tipo, x.tipo) > 0 {
        InsereEstavel(p, x, t);
        MesmoTipoConcat(Insere(p, x), [u], t);
      } else {
        MesmoTipoConcat(s, [x], t);
      }
    } else {
      assert Insere(s, x) == [x];
    }
  }

  /**
   * `insertionSortTipo` is stable: for every type, the components of that
   * type come out in the order they went in.
   */
  lemma {:induction false} InsertionSortEstavel(s: seq<Componente>, t: seq<char>)
    ensures MesmoTipo(InsertionSort(s), t) == MesmoTipo(s, t)
  {
    if |s| > 0 {
      var p, u := s[..|s| - 1], s[|s| - 1];
      InsertionSortEstavel(p, t);
      InsereEstavel(InsertionSort(p), u, t);
      assert s == p + [u];
      MesmoTipoConcat(p, [u], t);
    }
  }

  /** One insertion step makes at least one and at most `|s|` comparisons. */
  lemma {:induction false} CustoInsereLimites(s: seq<Componente>, x: Componente)
    ensures CustoInsere(s, x) <= |s|
    ensures |s| >= 1 ==> CustoInsere(s, x) >= 1
  {
    if |s| > 0 && StrCmp(s[|s| - 1].tipo, x.tipo) > 0 {
      CustoInsereLimites(s[..|s| - 1], x);
    }
  }

  /**
   * `insertionSortTipo` on `n >= 1` components makes between n-1 (already
   * sorted) and n(n-1)/2 (reverse sorted) comparisons.
   */
  lemma {:induction false} CustoInsertionSortLimites(s: seq<Componente>)
    requires |s| >= 1
    ensures |s| - 1 <= CustoInsertionSort(s)
    ensures 2 * CustoInsertionSort(s) <= |s| * (|s| - 1)
  {
    var m := |s| - 1;
    CustoInsertionSortTri(s);
    TriClosed(m);
    assert m * (m + 1) == |s| * (|s| - 1);
  }

  lemma {:induction false} CustoInsertionSortTri(s: seq<Componente>)
    requires |s| >= 1
    ensures |s| - 1 <= CustoInsertionSort(s) <= Tri(|s| - 1)
  {
    if |s| > 1 {
      var p := s[..|s| - 1];
      CustoInsertionSortTri(p);
      CustoInsereLimites(InsertionSort(p), s[|s| - 1]);
    }
  }

  /**
   * Where the scan of an insertion step stops: if every element after `j`
   * sorts strictly after the key and `s[j]` (when there is one) does not,
   * the key lands at `j + 1`, after one comparison per element passed and
   * one more for `s[j]`.
   */
  lemma {:induction false} InsereEm(s: seq<Componente>, x: Componente, j: int)
    requires -1 <= j < |s|
    requires forall k :: j < k < |s| ==> StrCmp(s[k].tipo, x.tipo) > 0
    requires j >= 0 ==> StrCmp(s[j].tipo, x.tipo) <= 0
    ensures PosInsere(s, x) == j + 1
    ensures CustoInsere(s, x) == |s| - 1 - j + (if j >= 0 then 1 else 0)
    decreases |s|
  {
    if j < |s| - 1 {
      InsereEm(s[..|s| - 1], x, j);
    }
  }

  lemma InsereNaPosicao(s: seq<Componente>, j: int, x: Componente)
    requires -1 <= j < |s| && PosInsere(s, x) == j + 1
    ensures Insere(s, x) == s[..j + 1] + [x] + s[j + 1..]
  {
  }

  /**
   * The rest of the inner loop of `insertionSortTipo` from position `j`,
   * followed by the store of the key `x` into the gap at `j + 1`: elements
   * whose type sorts after `x` move one place right, and the scan stops at
   * the first that does not.
   */
  function Varre(s: seq<Componente>, x: Componente, j: int): (r: seq<Componente>)
    requires -1 <= j && j + 1 < |s|
    ensures |r| == |s|
    decreases j + 1
  {
    if j >= 0 && StrCmp(s[j].tipo, x.tipo) > 0 then Varre(s[j + 1 := s[j]], x, j - 1)
    else s[j + 1 := x]
  }

  /** The comparisons `Varre` makes: one per element it looks at. */
  function CustoVarre(s: seq<Componente>, x: Componente, j: int): nat
    requires -1 <= j && j + 1 < |s|
    decreases j + 1
  {
    if j < 0 then 0
    else if StrCmp(s[j].tipo, x.tipo) > 0 then 1 + CustoVarre(s[j + 1 := s[j]], x, j - 1)
    else 1
  }

  /**
   * Midway through the scan for the key `x` taken from `s[i]`: `t` is `s`
   * with `s[j + 1 .. i)` moved one place right, all of them of a type after
   * `x`. Finishing the scan inserts `x` into `s[0 .. i)` as `Insere` does,
   * with the comparisons `CustoInsere` counts.
   */
  lemma {:induction false} VarreGeral(s: seq<Componente>, x: Componente, i: nat, t: seq<Componente>, j: int)
    requires i < |s| == |t| && -1 <= j < i
    requires forall k {:trigger t[k]} :: 0 <= k <= j ==> t[k] == s[k]
    requires forall k {:trigger t[k]} :: j + 1 < k <= i ==> t[k] == s[k - 1]
    requires forall k {:trigger t[k]} :: i < k < |s| ==> t[k] == s[k]
    requires forall k :: j < k < i ==> StrCmp(s[k].tipo, x.tipo) > 0
    ensures Varre(t, x, j) == Insere(s[..i], x) + s[i + 1..]
    ensures (i - 1 - j) + CustoVarre(t, x, j) == CustoInsere(s[..i], x)
    decreases j + 1
  {
    if j >= 0 && StrCmp(t[j].tipo, x.tipo) > 0 {
      VarreGeral(s, x, i, t[j + 1 := t[j]], j - 1);
    } else {
      VarreFim(s, x, i, t, j);
      InsereEm(s[..i], x, j);
    }
  }

  /** The scan stopped at `j`: the key written at `j + 1` completes the insertion. */
  lemma VarreFim(s: seq<Componente>, x: Componente, i: nat, t: seq<Componente>, j: int)
    requires i < |s| == |t| && -1 <= j < i
    requires forall k {:trigger t[k]} :: 0 <= k <= j ==> t[k] == s[k]
    requires forall k {:trigger t[k]} :: j + 1 < k <= i ==> t[k] == s[k - 1]
    requires forall k {:trigger t[k]} :: i < k < |s| ==> t[k] == s[k]
    requires forall k :: j < k < i ==> StrCmp(s[k].tipo, x.tipo) > 0
    requires j >= 0 ==> StrCmp(s[j].tipo, x.tipo) <= 0
    ensures t[j + 1 := x] == Insere(s[..i], x) + s[i + 1..]
  {
    var p := s[..i];
    InsereEm(p, x, j);
    InsereNaPosicao(p, j, x);
    Encaixe(s, x, i, t, j);
    assert p[..j + 1] == s[..j + 1] && p[j + 1..] == s[j + 1..i];
  }

  /** Position by position: `x` lands in the gap at `j + 1` between `s[0 .. j]` and the moved `s[j + 1 .. i)`. */
  lemma Encaixe(s: seq<Componente>, x: Componente, i: nat, t: seq<Componente>, j: int)
    requires i < |s| == |t| && -1 <= j < i
    requires forall k {:trigger t[k]} :: 0 <= k <= j ==> t[k] == s[k]
    requires forall k {:trigger t[k]} :: j + 1 < k <= i ==> t[k] == s[k - 1]
    requires forall k {:trigger t[k]} :: i < k < |s| ==> t[k] == s[k]
    ensures t[j + 1 := x] == s[..j + 1] + [x] + s[j + 1..i] + s[i + 1..]
  {
    var r := s[..j + 1] + [x] + s[j + 1..i] + s[i + 1..];
    forall k | 0 <= k < |s|
      ensures t[j + 1 := x][k] == r[k]
    {
    }
  }

  /** The scan for `s[i]` inserts it into `s[0 .. i)` and leaves `s[i + 1 ..]` alone. */
  lemma VarreInsere(s: seq<Componente>, i: nat)
    requires i < |s|
    ensures Varre(s, s[i], i - 1) == Insere(s[..i], s[i]) + s[i + 1..]
    ensures CustoVarre(s, s[i], i - 1) == CustoInsere(s[..i], s[i])
  {
    VarreGeral(s, s[i], i, s, i - 1);
  }

  /**
   * One outer step of `insertionSortTipo`: the key `a[i]` is shifted left
   * into the prefix `a[0 .. i)`, one comparison per element looked at.
   */
  method InsereChave(a: array<Componente>, i: nat, c0: nat) returns (c: nat)
    requires i < a.Length
    modifies a
    ensures a[..] == Varre(old(a[..]), old(a[i]), i - 1)
    ensures c == c0 + CustoVarre(old(a[..]), old(a[i]), i - 1)
  {
    var key := a[i];
    var j: int := i - 1;
    c := c0;
    var para := false;  // the `break` out of the scan
    while j >= 0 && !para
      invariant -1 <= j < i
      invariant Varre(a[..], key, j) == Varre(old(a[..]), key, i - 1)
      invariant c + (if para then 0 else CustoVarre(a[..], key, j)) == c0 + CustoVarre(old(a[..]), key, i - 1)
      invariant para ==> j >= 0 && StrCmp(a[j].tipo, key.tipo) <= 0
      decreases j + 1, !para
    {
      c := c + 1;
      if StrCmp(a[j].tipo, key.tipo) > 0 {
        ghost var s := a[..];
        a[j + 1] := a[j];
        assert a[..] == s[j + 1 := s[j]];
        j := j - 1;
      } else {
        para := true;
      }
    }
    ghost var s := a[..];
    a[j + 1] := key;
    assert a[..] == s[j + 1 := key];
  }

  /** The outer loop of `insertionSortTipo` on `s[0 .. n)`, from `i` on. */
  function Ordena(s: seq<Componente>, i: nat, n: nat): (r: seq<Componente>)
    requires 1 <= i && n <= |s|
    ensures |r| == |s|
    decreases n - i
  {
    if i >= n then s else Ordena(Varre(s, s[i], i - 1), i + 1, n)
  }

  /** The comparisons `Ordena` makes. */
  function CustoOrdena(s: seq<Componente>, i: nat, n: nat): nat
    requires 1 <= i && n <= |s|
    decreases n - i
  {
    if i >= n then 0 else CustoVarre(s, s[i], i - 1) + CustoOrdena(Varre(s, s[i], i - 1), i + 1, n)
  }

  /** A single component is already sorted, with no comparison. */
  lemma InsertionSortUm(s: seq<Componente>)
    requires |s| == 1
    ensures InsertionSort(s) == s && CustoInsertionSort(s) == 0
  {
    assert s[..0] == [];
  }

  /** Sorting one element more inserts it into the sorted prefix, at the cost of that insertion. */
  lemma PassoInsertion(s: seq<Componente>, i: nat, antes: seq<Componente>, depois: seq<Componente>, c: nat, c': nat)
    requires i < |s| && antes == InsertionSort(s[..i]) && c == CustoInsertionSort(s[..i])
    requires depois == Insere(antes, s[i]) && c' == c + CustoInsere(antes, s[i])
    ensures depois == InsertionSort(s[..i + 1]) && c' == CustoInsertionSort(s[..i + 1])
  {
    assert s[..i + 1][..i] == s[..i];
  }

  /** With `t[0 .. i)` the sorted `s[0 .. i)` and the rest untouched, the remaining steps sort `s[0 .. n)`. */
  lemma {:induction false} OrdenaGeral(s: seq<Componente>, t: seq<Componente>, i: nat, n: nat)
    requires 1 <= i <= n <= |s| == |t|
    requires t[..i] == InsertionSort(s[..i]) && t[i..] == s[i..]
    ensures Ordena(t, i, n)[..n] == InsertionSort(s[..n]) && Ordena(t, i, n)[n..] == s[n..]
    ensures CustoInsertionSort(s[..i]) + CustoOrdena(t, i, n) == CustoInsertionSort(s[..n])
    decreases n - i
  {
    if i < n {
      var u := Varre(t, t[i], i - 1);
      VarreInsere(t, i);
      assert t[i] == s[i];
      var c := CustoInsertionSort(s[..i]);
      PassoInsertion(s, i, t[..i], Insere(t[..i], t[i]), c, c + CustoInsere(t[..i], t[i]));
      assert u[..i + 1] == Insere(t[..i], t[i]);
      assert u[i + 1..] == s[i + 1..];
      OrdenaGeral(s, u, i + 1, n);
    } else {
      assert t == t[..n] + t[n..];
    }
  }

  /** The loops of `insertionSortTipo` compute `InsertionSort` of `s[0 .. n)` at the cost `CustoInsertionSort`. */
  lemma InsertionSortArranjo(s: seq<Componente>, n: nat)
    requires n <= |s|
    ensures Ordena(s, 1, n)[..n] == InsertionSort(s[..n]) && Ordena(s, 1, n)[n..] == s[n..]
    ensures CustoOrdena(s, 1, n) == CustoInsertionSort(s[..n])
  {
    if n > 0 {
      InsertionSortUm(s[..1]);
      OrdenaGeral(s, s, 1, n);
    } else {
      assert s[..0] == [];
    }
  }

  /**
   * `insertionSortTipo`: leaves `a[0 .. n)` as `InsertionSort` of its old
   * contents, a type-sorted permutation that is stable by
   * `InsertionSortEstavel`, and returns the comparisons `CustoInsertionSort`
   * counts, bounded by `CustoInsertionSortLimites`.
   */
  method InsertionSortTipo(a: array<Componente>, n: nat) returns (comparacoes: nat)
    requires n <= a.Length
    modifies a
    ensures a[..n] == InsertionSort(old(a[..n]))
    ensures a[n..] == old(a[n..])
    ensures comparacoes == CustoInsertionSort(old(a[..n]))
  {
    comparacoes := 0;
    var i := 1;
    while i < n
      invariant 1 <= i
      invariant Ordena(a[..], i, n) == Ordena(old(a[..]), 1, n)
      invariant comparacoes + CustoOrdena(a[..], i, n) == CustoOrdena(old(a[..]), 1, n)
    {
      comparacoes := InsereChave(a, i, comparacoes);
      i := i + 1;
    }
    InsertionSortArranjo(old(a[..]), n);
    assert old(a[..])[..n] == old(a[..n]);
  }

  // ---- selectionSortPrioridade ----------------------------------------------

  /** Priorities in `s[0 .. i)` are sorted and none exceeds a priority in `s[i .. n)`. */
  ghost predicate PrioridadesAte(s: seq<Componente>, i: int, n: int)
    requires 0 <= i <= n <= |s|
  {
    && (forall k, l :: 0 <= k < l < i ==> s[k].prioridade <= s[l].prioridade)
    && (forall k, l :: 0 <= k < i <= l < n ==> s[k].prioridade <= s[l].prioridade)
  }

  /**
   * The inner loop of `selectionSortPrioridade` from position `j`, with
   * `m` the smallest so far: a later position replaces it only when its
   * priority is strictly smaller.
   */
  function MenorDesde(s: seq<Componente>, m: nat, j: nat, n: nat): (r: nat)
    requires m < j <= n <= |s|
    ensures m <= r < n
    decreases n - j
  {
    if j >= n then m
    else MenorDesde(s, if s[j].prioridade < s[m].prioridade then j else m, j + 1, n)
  }

  /** One round of the outer loop: the smallest priority of `s[i .. n)` changes places with `s[i]`. */
  function TrocaMenor(s: seq<Componente>, i: nat, n: nat): (r: seq<Componente>)
    requires i < n <= |s|
    ensures |r| == |s|
  {
    var m := MenorDesde(s, i, i + 1, n);
    if m != i then s[i := s[m]][m := s[i]] else s
  }

  /** The outer loop of `selectionSortPrioridade` on `s[0 .. n)`, from round `i` on. */
  function Selecao(s: seq<Componente>, i: nat, n: nat): (r: seq<Componente>)
    requires n <= |s|
    ensures |r| == |s|
    decreases n - i
  {
    if i + 1 >= n then s else Selecao(TrocaMenor(s, i, n), i + 1, n)
  }

  /**
   * The scan finds the first position in `s[i .. n)` holding the smallest
   * priority, provided `m` is that position for `s[i .. j)`.
   */
  lemma {:induction false} MenorDesdeMinimo(s: seq<Componente>, i: nat, m: nat, j: nat, n: nat)
    requires i <= m < j <= n <= |s|
    requires forall k :: i <= k < j ==> s[m].prioridade <= s[k].prioridade
    requires forall k :: i <= k < m ==> s[m].prioridade < s[k].prioridade
    ensures var r := MenorDesde(s, m, j, n);
      && i <= r < n
      && (forall k :: i <= k < n ==> s[r].prioridade <= s[k].prioridade)
      && (forall k :: i <= k < r ==> s[r].prioridade < s[k].prioridade)
    decreases n - j
  {
    if j < n {
      var m' := if s[j].prioridade < s[m].prioridade then j else m;
      MenorDesdeMinimo(s, i, m', j + 1, n);
    }
  }

  /** Moving the smallest priority of `s[i .. n)` to `i` extends the sorted, separated prefix by one. */
  lemma PassoSelecao(s: seq<Componente>, i: nat, n: nat)
    requires i < n <= |s| && PrioridadesAte(s, i, n)
    ensures PrioridadesAte(TrocaMenor(s, i, n), i + 1, n)
  {
    var m := MenorDesde(s, i, i + 1, n);
    MenorDesdeMinimo(s, i, i, i + 1, n);
    assert TrocaMenor(s, i, n) == s[i := s[m]][m := s[i]];
  }

  /** Rounds `i` onwards sort `s[0 .. n)` by priority once `s[0 .. i)` is sorted and separated. */
  lemma {:induction false} SelecaoOrdena(s: seq<Componente>, i: nat, n: nat)
    requires i <= n <= |s| && PrioridadesAte(s, i, n)
    ensures SortedPrioridade(Selecao(s, i, n)[..n])
    decreases n - i
  {
    if i + 1 < n {
      PassoSelecao(s, i, n);
      SelecaoOrdena(TrocaMenor(s, i, n), i + 1, n);
    }
  }

  /** Rounds `i` onwards keep the elements. */
  lemma {:induction false} SelecaoMultiset(s: seq<Componente>, i: nat, n: nat)
    requires n <= |s|
    ensures multiset(Selecao(s, i, n)) == multiset(s)
    decreases n - i
  {
    if i + 1 < n {
      var m := MenorDesde(s, i, i + 1, n);
      TrocaMultiset(s, i, m);
      SelecaoMultiset(TrocaMenor(s, i, n), i + 1, n);
    }
  }

  /** Rounds `i` onwards leave `s[n ..]` alone. */
  lemma {:induction false} SelecaoSufixo(s: seq<Componente>, i: nat, n: nat)
    requires n <= |s|
    ensures forall k :: n <= k < |s| ==> Selecao(s, i, n)[k] == s[k]
    decreases n - i
  {
    if i + 1 < n {
      MenorDesdeMinimo(s, i, i, i + 1, n);
      SelecaoSufixo(TrocaMenor(s, i, n), i + 1, n);
    }
  }

  /** `Selecao` from round 0 sorts `s[0 .. n)` by priority, keeping its elements and leaving `s[n ..]` alone. */
  lemma SelectionSortCorreto(s: seq<Componente>, n: nat)
    requires n <= |s|
    ensures SortedPrioridade(Selecao(s, 0, n)[..n])
    ensures multiset(Selecao(s, 0, n)[..n]) == multiset(s[..n])
    ensures Selecao(s, 0, n)[n..] == s[n..]
  {
    var r := Selecao(s, 0, n);
    SelecaoOrdena(s, 0, n);
    SelecaoMultiset(s, 0, n);
    SelecaoSufixo(s, 0, n);
    assert r[n..] == s[n..];
    PrefixMultiset(r, s, n);
  }

  /**
   * The inner loop of `selectionSortPrioridade`: the position `MenorDesde`
   * describes, found with `n - i - 1` comparisons.
   */
  method MenorPrioridade(a: array<Componente>, i: nat, n: nat, c0: nat) returns (minIdx: nat, c: nat)
    requires i < n <= a.Length
    ensures minIdx == MenorDesde(a[..], i, i + 1, n)
    ensures c == c0 + (n - i - 1)
  {
    minIdx, c := i, c0;
    var j := i + 1;
    while j < n
      invariant i <= minIdx < j <= n
      invariant c == c0 + (j - i - 1)
      invariant MenorDesde(a[..], minIdx, j, n) == MenorDesde(a[..], i, i + 1, n)
    {
      c := c + 1;
      if a[j].prioridade < a[minIdx].prioridade {
        minIdx := j;
      }
      j := j + 1;
    }
  }

  /**
   * `selectionSortPrioridade`: the rounds `Selecao` describes, sorting
   * `a[0 .. n)` by priority (`SelectionSortCorreto`), with exactly n(n-1)/2
   * comparisons whatever the input order.
   */
  method SelectionSortPrioridade(a: array<Componente>, n: nat) returns (comparacoes: nat)
    requires n <= a.Length
    modifies a
    ensures a[..] == Selecao(old(a[..]), 0, n)
    ensures 2 * comparacoes == n * (n - 1)
  {
    comparacoes := 0;
    var i := 0;
    while i < n - 1
      invariant 0 <= i <= n
      invariant n > 0 ==> i < n && comparacoes == Rounds(n, i)
      invariant n == 0 ==> comparacoes == 0
      invariant Selecao(a[..], i, n) == Selecao(old(a[..]), 0, n)
    {
      ghost var s := a[..];
      var minIdx;
      minIdx, comparacoes := MenorPrioridade(a, i, n, comparacoes);
      if minIdx != i {
        Swap(a, i, minIdx);
      }
      assert a[..] == TrocaMenor(s, i, n);
      i := i + 1;
    }
    if n > 0 {
      RoundsClosed(n);
    }
  }

  // ---- buscaBinariaPorNome -------------------------------------------------

  /**
   * `buscaBinariaPorNome`: halving search for `nome` in `a[0 .. n)`, one
   * comparison per round, as `BuscaBinaria` describes. Order is not checked;
   * `BuscaBinariaCorreta` gives what the answer means.
   */
  method BuscaBinariaPorNome(a: array<Componente>, n: nat, nome: seq<char>) returns (idx: int, comparacoes: nat)
    requires n <= a.Length
    ensures (idx, comparacoes) == BuscaBinaria(NomesDe(a[..n]), nome, 0, n - 1)
  {
    ghost var s := NomesDe(a[..n]);
    comparacoes := 0;
    var low: int, high: int := 0, n - 1;
    while low <= high
      invariant 0 <= low <= high + 1 <= n
      invariant BuscaBinaria(s, nome, low, high).0 == BuscaBinaria(s, nome, 0, n - 1).0
      invariant comparacoes + BuscaBinaria(s, nome, low, high).1 == BuscaBinaria(s, nome, 0, n - 1).1
      decreases high - low
    {
      comparacoes := comparacoes + 1;
      var mid := (low + high) / 2;
      var cmp := StrCmp(a[mid].nome, nome);
      if cmp == 0 {
        return mid, comparacoes;
      } else if cmp < 0 {
        low := mid + 1;
      } else {
        high := mid - 1;
      }
    }
    return -1, comparacoes;
  }
}
