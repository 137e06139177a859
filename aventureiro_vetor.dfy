/**
 * The adventurer variant's item record and its array backend `MochilaVetor`:
 * a fixed array of `MAX` items and a counter `tamanho` of the slots in use.
 */
module Aventureiro {
  import opened StrOrder

  /** Capacity of the array backend. */
  const MAX: nat := 100

  /** An item of the backpack: name, kind and quantity. */
  datatype Item = Item(nome: seq<char>, tipo: seq<char>, quantidade: int)

  /** The names of `s`, in order. */
  function Nomes(s: seq<Item>): (r: seq<seq<char>>)
    ensures |r| == |s| && forall k :: 0 <= k < |s| ==> r[k] == s[k].nome
  {
    seq(|s|, k requires 0 <= k < |s| => s[k].nome)
  }

  /** `s` without its element at `i`, the others in their order. */
  function Without<T>(s: seq<T>, i: nat): (r: seq<T>)
    requires i < |s|
    ensures |r| == |s| - 1
    ensures forall k :: 0 <= k < i ==> r[k] == s[k]
    ensures forall k :: i <= k < |r| ==> r[k] == s[k + 1]
  {
    s[..i] + s[i + 1..]
  }

  /** Dropping one element takes exactly that element out of the multiset. */
  lemma {:induction false} WithoutMultiset(s: seq<Item>, i: nat)
    requires i < |s|
    ensures multiset(Without(s, i)) == multiset(s) - multiset{s[i]}
  {
    assert s == s[..i] + [s[i]] + s[i + 1..];
    calc {
      multiset(s);
      multiset(s[..i]) + multiset{s[i]} + multiset(s[i + 1..]);
      multiset(s[..i] + s[i + 1..]) + multiset{s[i]};
    }
  }

  /** Names in `s[lo .. hi)` are in `strcmp` order. */
  ghost predicate SortedBetween(s: seq<Item>, lo: int, hi: int)
    requires 0 <= lo && hi <= |s|
  {
    forall k, l :: lo <= k < l < hi ==> Le(s[k].nome, s[l].nome)
  }

  /** No name in `s[0 .. m)` sorts after a name in `s[m .. hi)`. */
  ghost predicate Split(s: seq<Item>, m: int, hi: int)
    requires 0 <= m && hi <= |s|
  {
    forall k, l :: 0 <= k < m <= l < hi ==> Le(s[k].nome, s[l].nome)
  }

  /** `s[j]` has the largest name of `s[0 .. j]`. */
  ghost predicate MaxAt(s: seq<Item>, j: int)
    requires 0 <= j < |s|
  {
    forall k :: 0 <= k < j ==> Le(s[k].nome, s[j].nome)
  }

  /** Exchanges `a[i]` and `a[j]`. */
  method Swap(a: array<Item>, i: int, j: int)
    requires 0 <= i < a.Length && 0 <= j < a.Length
    modifies a
    ensures a[..] == old(a[..])[i := old(a[j])][j := old(a[i])]
  {
    a[i], a[j] := a[j], a[i];
  }

  /** Exchanging two elements keeps the multiset. */
  lemma SwapMultiset(s: seq<Item>, i: nat, j: nat)
    requires i < |s| && j < |s|
    ensures multiset(s[i := s[j]][j := s[i]]) == multiset(s)
  {
  }

  /** The inner-loop body of `ordenarVetor` at `j`: neighbours out of name order change places. */
  function Step(s: seq<Item>, j: nat): seq<Item>
    requires j + 1 < |s|
  {
    if StrCmp(s[j].nome, s[j + 1].nome) > 0 then s[j := s[j + 1]][j + 1 := s[j]] else s
  }

  /** The inner loop of `ordenarVetor` over `s[0 .. m)`, from position `j` on. */
  function Pass(s: seq<Item>, j: nat, m: nat): (r: seq<Item>)
    requires j < m <= |s|
    ensures |r| == |s|
    decreases m - j
  {
    if j + 1 >= m then s else Pass(Step(s, j), j + 1, m)
  }

  /** The outer loop of `ordenarVetor` on `s[0 .. n)`, from round `i` on. */
  function Bubble(s: seq<Item>, i: nat, n: nat): (r: seq<Item>)
    requires n <= |s|
    ensures |r| == |s|
    decreases n - i
  {
    if i + 1 >= n then s else Bubble(Pass(s, 0, n - i), i + 1, n)
  }

  /** Swapping an out-of-order pair at `j` carries the larger name forward and keeps the sorted suffix. */
  lemma SwapStep(s: seq<Item>, j: nat, m: nat, n: nat)
    requires j + 1 < m <= n <= |s|
    requires SortedBetween(s, m, n) && Split(s, m, n) && MaxAt(s, j)
    requires StrCmp(s[j].nome, s[j + 1].nome) > 0
    ensures var t := s[j := s[j + 1]][j + 1 := s[j]];
      && SortedBetween(t, m, n) && Split(t, m, n) && MaxAt(t, j + 1)
  {
    GtGivesLe(s[j].nome, s[j + 1].nome);
  }

  /** A pair already in order at `j` leaves the larger name at `j + 1`. */
  lemma KeepStep(s: seq<Item>, j: nat)
    requires j + 1 < |s| && MaxAt(s, j)
    requires StrCmp(s[j].nome, s[j + 1].nome) <= 0
    ensures MaxAt(s, j + 1)
  {
    forall k | 0 <= k < j
      ensures Le(s[k].nome, s[j + 1].nome)
    {
      LeTrans(s[k].nome, s[j].nome, s[j + 1].nome);
    }
  }

  /** The largest name of `s[0 .. m)` at `m - 1` extends the sorted, split suffix by one. */
  lemma ClosePass(s: seq<Item>, m: nat, n: nat)
    requires 1 <= m <= n <= |s|
    requires SortedBetween(s, m, n) && Split(s, m, n) && MaxAt(s, m - 1)
    ensures SortedBetween(s, m - 1, n) && Split(s, m - 1, n)
  {
  }

  /** One inner-loop step keeps the elements. */
  lemma StepMultiset(s: seq<Item>, j: nat)
    requires j + 1 < |s|
    ensures multiset(Step(s, j)) == multiset(s)
  {
    if StrCmp(s[j].nome, s[j + 1].nome) > 0 {
      SwapMultiset(s, j, j + 1);
    }
  }

  /** A pass only exchanges elements. */
  lemma {:induction false} PassMultiset(s: seq<Item>, j: nat, m: nat)
    requires j < m <= |s|
    ensures multiset(Pass(s, j, m)) == multiset(s)
    decreases m - j
  {
    if j + 1 < m {
      var t := Step(s, j);
      StepMultiset(s, j);
      PassMultiset(t, j + 1, m);
      assert Pass(s, j, m) == Pass(t, j + 1, m);
    }
  }

  /** A pass leaves `s[m ..]` alone. */
  lemma {:induction false} PassSuffix(s: seq<Item>, j: nat, m: nat)
    requires j < m <= |s|
    ensures forall k :: m <= k < |s| ==> Pass(s, j, m)[k] == s[k]
    decreases m - j
  {
    if j + 1 < m {
      PassSuffix(Step(s, j), j + 1, m);
    }
  }

  /**
   * A pass started at `j` with the largest name of `s[0 .. j]` at `j` ends
   * with the largest name of `s[0 .. m)` at `m - 1`, which extends the
   * sorted suffix `s[m .. n)` by one place.
   */
  lemma {:induction false} PassCarriesMax(s: seq<Item>, j: nat, m: nat, n: nat)
    requires j < m <= n <= |s|
    requires SortedBetween(s, m, n) && Split(s, m, n) && MaxAt(s, j)
    ensures SortedBetween(Pass(s, j, m), m - 1, n) && Split(Pass(s, j, m), m - 1, n)
    decreases m - j
  {
    if j + 1 >= m {
      ClosePass(s, m, n);
    } else {
      if StrCmp(s[j].nome, s[j + 1].nome) > 0 {
        SwapStep(s, j, m, n);
      } else {
        KeepStep(s, j);
      }
      PassCarriesMax(Step(s, j), j + 1, m, n);
    }
  }

  /** Rounds `i` onwards sort `s[0 .. n)` when `s[n - i .. n)` is sorted and split from the rest. */
  lemma {:induction false} BubbleSorts(s: seq<Item>, i: nat, n: nat)
    requires i <= n <= |s|
    requires SortedBetween(s, n - i, n) && Split(s, n - i, n)
    ensures SortedBetween(Bubble(s, i, n), 0, n)
    decreases n - i
  {
    if i + 1 < n {
      var m := n - i;
      PassCarriesMax(s, 0, m, n);
      assert n - (i + 1) == m - 1;
      BubbleSorts(Pass(s, 0, m), i + 1, n);
    }
  }

  /** Rounds `i` onwards keep the elements. */
  lemma {:induction false} BubbleMultiset(s: seq<Item>, i: nat, n: nat)
    requires n <= |s|
    ensures multiset(Bubble(s, i, n)) == multiset(s)
    decreases n - i
  {
    if i + 1 < n {
      PassMultiset(s, 0, n - i);
      BubbleMultiset(Pass(s, 0, n - i), i + 1, n);
    }
  }

  /** Rounds `i` onwards leave `s[n ..]` alone. */
  lemma {:induction false} BubbleSuffix(s: seq<Item>, i: nat, n: nat)
    requires n <= |s|
    ensures forall k :: n <= k < |s| ==> Bubble(s, i, n)[k] == s[k]
    decreases n - i
  {
    if i + 1 < n {
      PassSuffix(s, 0, n - i);
      BubbleSuffix(Pass(s, 0, n - i), i + 1, n);
    }
  }

  /** `Bubble` from round 0 name-sorts `s[0 .. n)`, keeping its elements and leaving `s[n ..]` alone. */
  lemma BubbleSortCorrect(s: seq<Item>, n: nat)
    requires n <= |s|
    ensures Sorted(Nomes(Bubble(s, 0, n)[..n]))
    ensures multiset(Bubble(s, 0, n)[..n]) == multiset(s[..n])
    ensures Bubble(s, 0, n)[n..] == s[n..]
  {
    var r := Bubble(s, 0, n);
    BubbleSorts(s, 0, n);
    BubbleMultiset(s, 0, n);
    BubbleSuffix(s, 0, n);
    assert r[n..] == s[n..];
    PrefixMultiset(r, s, n);
  }

  /** Round `i` of `ordenarVetor`: one pass over `a[0 .. n - i)`. */
  method BubblePass(a: array<Item>, n: nat, i: nat)
    requires i + 1 < n <= a.Length
    modifies a
    ensures a[..] == Pass(old(a[..]), 0, n - i)
  {
    var j := 0;
    while j < n - i - 1
      invariant 0 <= j <= n - i - 1
      invariant Pass(a[..], j, n - i) == Pass(old(a[..]), 0, n - i)
    {
      ghost var s := a[..];
      if StrCmp(a[j].nome, a[j + 1].nome) > 0 {
        Swap(a, j, j + 1);
      }
      assert a[..] == Step(s, j);
      j := j + 1;
    }
  }

  /** Equal suffixes and equal multisets give equal multisets of the prefixes. */
  lemma PrefixMultiset(s: seq<Item>, t: seq<Item>, n: nat)
    requires |s| == |t| && n <= |s|
    requires multiset(s) == multiset(t) && s[n..] == t[n..]
    ensures multiset(s[..n]) == multiset(t[..n])
  {
    assert s == s[..n] + s[n..] && t == t[..n] + t[n..];
    assert multiset(s) == multiset(s[..n]) + multiset(s[n..]);
    assert multiset(t) == multiset(t[..n]) + multiset(t[n..]);
    forall x ensures multiset(s[..n])[x] == multiset(t[..n])[x] {
      assert multiset(s)[x] == multiset(s[..n])[x] + multiset(s[n..])[x];
      assert multiset(t)[x] == multiset(t[..n])[x] + multiset(t[n..])[x];
    }
  }

  class MochilaVetor {
    var itens: array<Item>
    var tamanho: nat

    ghost predicate Valid()
      reads this
    {
      itens.Length == MAX && tamanho <= MAX
    }

    /** The items in use, `itens[0 .. tamanho)`. */
    ghost function Contents(): seq<Item>
      reads this, itens
      requires Valid()
    {
      itens[..tamanho]
    }

    /** `initVetor`: an empty backpack. */
    constructor ()
      ensures Valid() && fresh(itens)
      ensures Contents() == []
    {
      itens := new Item[MAX](_ => Item([], [], 0));
      tamanho := 0;
    }

    /**
     * `inserirItemVetor`: appends `it` at `tamanho`; refuses (returns 0, here
     * `false`) when `tamanho >= MAX`.
     */
    method InserirItem(it: Item) returns (ok: bool)
      requires Valid()
      modifies this`tamanho, itens
      ensures Valid()
      ensures ok == (old(tamanho) < MAX)
      ensures Contents() == if ok then old(Contents()) + [it] else old(Contents())
      ensures forall k :: 0 <= k < MAX && k != old(tamanho) ==> itens[k] == old(itens[k])
    {
      if tamanho >= MAX {
        return false;
      }
      itens[tamanho] := it;
      tamanho := tamanho + 1;
      return true;
    }

    /**
     * The shifting loop of `removerItemVetor`: each item after position `i`
     * moves one place left, so the first `tamanho - 1` slots hold the items
     * without the one at `i`.
     */
    method Deslocar(i: nat)
      requires Valid() && i < tamanho
      modifies itens
      ensures Valid()
      ensures itens[..tamanho - 1] == Without(old(itens[..tamanho]), i)
    {
      ghost var s := itens[..];
      var j := i;
      while j < tamanho - 1
        invariant i <= j <= tamanho - 1
        invariant forall k {:trigger itens[k]} :: i <= k < j ==> itens[k] == s[k + 1]
        invariant forall k {:trigger itens[k]} :: 0 <= k < MAX && (k < i || j <= k) ==> itens[k] == s[k]
      {
        itens[j] := itens[j + 1];
        j := j + 1;
      }
      assert forall k :: 0 <= k < tamanho - 1 ==> itens[..tamanho - 1][k] == Without(s[..tamanho], i)[k];
    }

    /**
     * `removerItemVetor`: takes out the first item named `nome` and shifts
     * the later ones one place left; nothing changes when no item has that name.
     */
    method RemoverItem(nome: seq<char>) returns (ok: bool)
      requires Valid()
      modifies this`tamanho, itens
      ensures Valid()
      ensures ok == (nome in Nomes(old(Contents())))
      ensures ok ==> Contents() == Without(old(Contents()), IndexOf(Nomes(old(Contents())), nome))
      ensures !ok ==> tamanho == old(tamanho) && itens[..] == old(itens[..])
    {
      var i := 0;
      while i < tamanho
        invariant Valid() && tamanho == old(tamanho)
        invariant 0 <= i <= tamanho
        invariant forall k :: 0 <= k < i ==> itens[k].nome != nome
        invariant itens[..] == old(itens[..])
      {
        if StrCmp(itens[i].nome, nome) == 0 {
          Deslocar(i);
          ghost var before := old(Contents());
          ghost var at := IndexOf(Nomes(before), nome);
          assert Nomes(before)[i] == nome;
          assert at == i;
          tamanho := tamanho - 1;
          return true;
        }
        i := i + 1;
      }
      assert nome !in Nomes(old(Contents())) by {
        assert forall k :: 0 <= k < tamanho ==> Nomes(old(Contents()))[k] != nome;
      }
      return false;
    }

    /**
     * `buscarSequencialVetor`: the first index holding `nome`, or -1, and the
     * number of names compared on the way.
     */
    method BuscarSequencial(nome: seq<char>) returns (idx: int, comparacoes: nat)
      requires Valid()
      ensures idx == IndexOf(Nomes(Contents()), nome)
      ensures comparacoes == if idx == -1 then tamanho else idx + 1
    {
      comparacoes := 0;
      var i := 0;
      while i < tamanho
        invariant 0 <= i <= tamanho
        invariant comparacoes == i
        invariant forall k :: 0 <= k < i ==> itens[k].nome != nome
      {
        comparacoes := comparacoes + 1;
        if StrCmp(itens[i].nome, nome) == 0 {
          assert Nomes(Contents())[i] == nome;
          return i, comparacoes;
        }
        i := i + 1;
      }
      assert nome !in Nomes(Contents()) by {
        assert forall k :: 0 <= k < tamanho ==> Nomes(Contents())[k] != nome;
      }
      return -1, comparacoes;
    }

    /**
     * `ordenarVetor`: bubble sort of the items in use by name, swapping a
     * neighbouring pair whenever `strcmp` puts the left one after the right
     * one: the items in use end name-sorted and are a permutation of the
     * old ones, and the unused slots are untouched.
     */
    method Ordenar()
      requires Valid()
      modifies itens
      ensures Valid()
      ensures itens[..] == Bubble(old(itens[..]), 0, tamanho)
      ensures Sorted(Nomes(Contents())) && multiset(Contents()) == multiset(old(Contents()))
    {
      var i := 0;
      while i < tamanho - 1
        invariant 0 <= i <= tamanho
        invariant Bubble(itens[..], i, tamanho) == Bubble(old(itens[..]), 0, tamanho)
      {
        BubblePass(itens, tamanho, i);
        i := i + 1;
      }
      BubbleSortCorrect(old(itens[..]), tamanho);
    }

    /**
     * `buscarBinariaVetor`: halving search for `nome` among the items in use,
     * one comparison per round, as `BuscaBinaria` describes. Order is not
     * checked; `BuscaBinariaCorreta` gives what the answer means.
     */
    method BuscarBinaria(nome: seq<char>) returns (idx: int, comparacoes: nat)
      requires Valid()
      ensures (idx, comparacoes) == BuscaBinaria(Nomes(Contents()), nome, 0, tamanho - 1)
    {
      ghost var s := Nomes(Contents());
      comparacoes := 0;
      var low: int, high: int := 0, tamanho - 1;
      while low <= high
        invariant 0 <= low <= high + 1 <= tamanho
        invariant BuscaBinaria(s, nome, low, high).0 == BuscaBinaria(s, nome, 0, tamanho - 1).0
        invariant comparacoes + BuscaBinaria(s, nome, low, high).1 == BuscaBinaria(s, nome, 0, tamanho - 1).1
        decreases high - low
      {
        comparacoes := comparacoes + 1;
        var mid := (low + high) / 2;
        var cmp := StrCmp(itens[mid].nome, nome);
        if cmp == 0 {
          return mid, comparacoes;
        } else if cmp < 0 {
          low := mid + 1;
        } else {
          high := mid - 1;
        }
      }
      return -1, comparacoes;
    }
  }
}
