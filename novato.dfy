/**
 * The novice variant: the global array `mochila` of `MAX_ITENS` items and
 * the counter `totalItens` of slots in use, held here as the fields of one
 * `Mochila` object. Its items have the same three fields as the adventurer
 * variant's, so the `Item` record is shared.
 */
module Novato {
  import opened StrOrder
  import opened Aventureiro

  /** `MAX_ITENS`. */
  const MAX_ITENS: nat := 10

  /** The message `removerItem` ends with. */
  datatype Remocao = MochilaVazia | Removido | NaoEncontrado

  /** The message `buscarItem` ends with; a found item is the one it prints. */
  datatype Consulta = Vazia | Achado(indice: nat, item: Item) | NaoAchado

  /**
   * `s` after the removal at `i`: the last element overwrites position `i`
   * and the sequence loses its last place.
   */
  function TrocaComUltimo<T>(s: seq<T>, i: nat): (r: seq<T>)
    requires i < |s|
    ensures |r| == |s| - 1
  {
    s[i := s[|s| - 1]][..|s| - 1]
  }

  /** The swap-with-last removal takes exactly `s[i]` out of the multiset. */
  lemma TrocaComUltimoMultiset(s: seq<Item>, i: nat)
    requires i < |s|
    ensures multiset(TrocaComUltimo(s, i)) == multiset(s) - multiset{s[i]}
  {
    var n := |s| - 1;
    if i == n {
      assert s == s[..n] + [s[n]];
      assert TrocaComUltimo(s, i) == s[..n];
    } else {
      assert s == s[..i] + [s[i]] + s[i + 1..n] + [s[n]];
      assert TrocaComUltimo(s, i) == s[..i] + [s[n]] + s[i + 1..n];
    }
  }

  class Mochila {
    var mochila: array<Item>
    var totalItens: nat

    ghost predicate Valid()
      reads this
    {
      mochila.Length == MAX_ITENS && totalItens <= MAX_ITENS
    }

    /** The items in use, `mochila[0 .. totalItens)`. */
    ghost function Contents(): seq<Item>
      reads this, mochila
      requires Valid()
    {
      mochila[..totalItens]
    }

    /** The program's start: an empty backpack. */
    constructor ()
      ensures Valid() && fresh(mochila)
      ensures Contents() == []
    {
      mochila := new Item[MAX_ITENS](_ => Item([], [], 0));
      totalItens := 0;
    }

    /**
     * `inserirItem` without its prompts: `novo` stands for the item read from
     * the keyboard. A full backpack is left as it is.
     */
    method InserirItem(novo: Item) returns (ok: bool)
      requires Valid()
      modifies this`totalItens, mochila
      ensures Valid()
      ensures ok == (old(totalItens) < MAX_ITENS)
      ensures ok ==> Contents() == old(Contents()) + [novo]
      ensures ok ==> forall k :: 0 <= k < MAX_ITENS && k != old(totalItens) ==> mochila[k] == old(mochila[k])
      ensures !ok ==> totalItens == old(totalItens) && mochila[..] == old(mochila[..])
    {
      if totalItens >= MAX_ITENS {
        return false;
      }
      mochila[totalItens] := novo;
      totalItens := totalItens + 1;
      return true;
    }

    /**
     * `removerItem` without its prompts: the first item named `nome` is
     * overwritten by the last item in use and the count drops by one. An
     * empty backpack or an absent name changes nothing.
     */
    method RemoverItem(nome: seq<char>) returns (r: Remocao)
      requires Valid()
      modifies this`totalItens, mochila
      ensures Valid()
      ensures r == MochilaVazia <==> old(totalItens) == 0
      ensures r == Removido <==> nome in Nomes(old(Contents()))
      ensures r == Removido ==>
                var i := IndexOf(Nomes(old(Contents())), nome);
                && Contents() == TrocaComUltimo(old(Contents()), i)
                && mochila[..] == old(mochila[..])[i := old(mochila[totalItens - 1])]
                && multiset(Contents()) == multiset(old(Contents())) - multiset{old(mochila[i])}
      ensures r != Removido ==> totalItens == old(totalItens) && mochila[..] == old(mochila[..])
    {
      if totalItens == 0 {
        return MochilaVazia;
      }
      var encontrado := false;
      var i := 0;
      while i < totalItens
        invariant Valid() && 0 <= i <= totalItens
        invariant !encontrado
        invariant totalItens == old(totalItens) && mochila[..] == old(mochila[..])
        invariant forall k :: 0 <= k < i ==> mochila[k].nome != nome
      {
        if StrCmp(mochila[i].nome, nome) == 0 {
          ghost var nomes := Nomes(Contents());
          assert nomes[i] == nome;
          assert IndexOf(nomes, nome) == i;
          encontrado := true;
          SobrescreverComUltimo(i);
          break;
        }
        i := i + 1;
      }
      if !encontrado {
        assert nome !in Nomes(Contents()) by {
          assert forall k :: 0 <= k < totalItens ==> Nomes(Contents())[k] != nome;
        }
        return NaoEncontrado;
      }
      return Removido;
    }

    /** The removal step of `removerItem`: slot `i` takes the last item in use. */
    method SobrescreverComUltimo(i: nat)
      requires Valid() && i < totalItens
      modifies this`totalItens, mochila
      ensures Valid() && totalItens == old(totalItens) - 1
      ensures Contents() == TrocaComUltimo(old(Contents()), i)
      ensures mochila[..] == old(mochila[..])[i := old(mochila[totalItens - 1])]
      ensures multiset(Contents()) == multiset(old(Contents())) - multiset{old(mochila[i])}
    {
      mochila[i] := mochila[totalItens - 1];
      totalItens := totalItens - 1;
      TrocaComUltimoMultiset(old(Contents()), i);
    }

    /**
     * `buscarItem` without its prompts: the first item named `nome`, with its
     * index, or which of the two failure messages is printed.
     */
    method BuscarItem(nome: seq<char>) returns (r: Consulta)
      requires Valid()
      ensures r == Vazia <==> totalItens == 0
      ensures r.Achado? <==> totalItens > 0 && nome in Nomes(Contents())
      ensures r.Achado? ==> r.indice == IndexOf(Nomes(Contents()), nome) && r.item == mochila[r.indice]
    {
      if totalItens == 0 {
        return Vazia;
      }
      r := NaoAchado;
      var i := 0;
      while i < totalItens
        invariant 0 <= i <= totalItens
        invariant r == NaoAchado
        invariant forall k :: 0 <= k < i ==> mochila[k].nome != nome
      {
        if StrCmp(mochila[i].nome, nome) == 0 {
          assert Nomes(Contents())[i] == nome;
          r := Achado(i, mochila[i]);
          break;
        }
        i := i + 1;
      }
      if r == NaoAchado {
        assert nome !in Nomes(Contents()) by {
          assert forall k :: 0 <= k < totalItens ==> Nomes(Contents())[k] != nome;
        }
      }
    }
  }
}
