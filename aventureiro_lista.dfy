/**
 * The adventurer variant's linked-list backend `MochilaLista`: a chain of
 * `No` nodes reached from `inicio`, built by prepending.
 *
 * The chain is described by the ghost sequence `nos` of its nodes in
 * head-to-tail order and the ghost sequence `Contents` of their items.
 */
module AventureiroLista {
  import opened StrOrder
  import opened Aventureiro

  /** A node: one item and the link to the next node (`null` at the tail). */
  class No {
    var dados: Item
    var proximo: No?

    constructor (dados: Item, proximo: No?)
      ensures this.dados == dados && this.proximo == proximo
    {
      this.dados := dados;
      this.proximo := proximo;
    }
  }

  /** The node after `nos[i]` in the chain, `null` after the last. */
  function Seguinte(nos: seq<No>, i: int): No?
    requires 0 <= i < |nos|
  {
    if i + 1 < |nos| then nos[i + 1] else null
  }

  class MochilaLista {
    var inicio: No?
    ghost var nos: seq<No>
    ghost var Contents: seq<Item>

    /** `inicio` leads through `nos` in order to `null`, no node twice, each holding its item of `Contents`. */
    ghost predicate Valid()
      reads this, nos
    {
      && |Contents| == |nos|
      && inicio == (if |nos| == 0 then null else nos[0])
      && (forall i :: 0 <= i < |nos| ==> nos[i].dados == Contents[i])
      && (forall i :: 0 <= i < |nos| ==> nos[i].proximo == Seguinte(nos, i))
      && (forall i, j :: 0 <= i < j < |nos| ==> nos[i] != nos[j])
    }

    /** `initLista`: the empty list. */
    constructor ()
      ensures Valid() && Contents == [] && nos == []
    {
      inicio := null;
      nos := [];
      Contents := [];
    }

    /**
     * `inserirItemLista`: a new node holding `it` becomes the head. `alocou`
     * stands for the outcome of `malloc`; when it fails the list is untouched
     * and the answer is 0 (here `false`).
     */
    method InserirItem(it: Item, alocou: bool) returns (ok: bool)
      requires Valid()
      modifies this
      ensures Valid()
      ensures ok == alocou
      ensures Contents == if ok then [it] + old(Contents) else old(Contents)
      ensures ok ==> |nos| == |old(nos)| + 1 && fresh(nos[0]) && nos[1..] == old(nos)
      ensures !ok ==> nos == old(nos) && inicio == old(inicio)
    {
      if !alocou {
        return false;
      }
      var novo := new No(it, inicio);
      inicio := novo;
      nos := [novo] + nos;
      Contents := [it] + Contents;
      forall i | 1 <= i < |nos|
        ensures nos[i].proximo == Seguinte(nos, i)
      {
        assert nos[i] == old(nos[i - 1]) && old(nos[i - 1].proximo) == old(Seguinte(nos, i - 1));
      }
      return true;
    }

    /**
     * `removerItemLista`: unlinks the first node, head to tail, whose item is
     * named `nome` (moving `inicio` when it is the head); the rest of the
     * chain keeps its order. Nothing changes when no item has that name.
     */
    method RemoverItem(nome: seq<char>) returns (ok: bool)
      requires Valid()
      modifies this, nos
      ensures Valid()
      ensures ok == (nome in Nomes(old(Contents)))
      ensures ok ==> var i := IndexOf(Nomes(old(Contents)), nome);
                     Contents == Without(old(Contents), i) && nos == Without(old(nos), i)
      ensures !ok ==> Contents == old(Contents) && nos == old(nos) && inicio == old(inicio)
    {
      var atual := inicio;
      var prev: No? := null;
      ghost var k := 0;
      while atual != null
        invariant Valid() && nos == old(nos) && Contents == old(Contents) && inicio == old(inicio)
        invariant 0 <= k <= |nos|
        invariant atual == if k < |nos| then nos[k] else null
        invariant prev == if k == 0 then null else nos[k - 1]
        invariant forall p :: 0 <= p < k ==> Contents[p].nome != nome
        decreases |nos| - k
      {
        if StrCmp(atual.dados.nome, nome) == 0 {
          assert Nomes(Contents)[k] == nome;
          Desligar(atual, prev, k);
          return true;
        }
        prev := atual;
        atual := atual.proximo;
        k := k + 1;
      }
      assert nome !in Nomes(Contents) by {
        assert forall p :: 0 <= p < |Contents| ==> Nomes(Contents)[p] != nome;
      }
      return false;
    }

    /**
     * The unlinking step of `removerItemLista`: `atual` is node `k` and `prev`
     * the node before it (`null` at the head); the predecessor's link, or
     * `inicio`, skips over `atual`.
     */
    method Desligar(atual: No, prev: No?, ghost k: nat)
      requires Valid() && k < |nos| && atual == nos[k]
      requires prev == if k == 0 then null else nos[k - 1]
      modifies this, nos
      ensures Valid()
      ensures nos == Without(old(nos), k) && Contents == Without(old(Contents), k)
    {
      if prev != null {
        prev.proximo := atual.proximo;
      } else {
        inicio := atual.proximo;
      }
      nos := Without(nos, k);
      Contents := Without(Contents, k);
      forall i | 0 <= i < |nos|
        ensures nos[i].proximo == Seguinte(nos, i)
      {
        var j := if i < k then i else i + 1;
        assert nos[i] == old(nos)[j];
        assert old(nos[j].proximo) == old(Seguinte(nos, j));
      }
    }

    /**
     * `buscarSequencialLista`: the 0-based position, head to tail, of the
     * first item named `nome`, or -1, and the number of names compared.
     */
    method BuscarSequencial(nome: seq<char>) returns (pos: int, comparacoes: nat)
      requires Valid()
      ensures pos == IndexOf(Nomes(Contents), nome)
      ensures comparacoes == if pos == -1 then |Contents| else pos + 1
    {
      comparacoes := 0;
      var atual := inicio;
      pos := 0;
      while atual != null
        invariant Valid()
        invariant 0 <= pos <= |nos|
        invariant atual == if pos < |nos| then nos[pos] else null
        invariant comparacoes == pos
        invariant forall p :: 0 <= p < pos ==> Contents[p].nome != nome
        decreases |nos| - pos
      {
        comparacoes := comparacoes + 1;
        if StrCmp(atual.dados.nome, nome) == 0 {
          assert Nomes(Contents)[pos] == nome;
          return pos, comparacoes;
        }
        pos := pos + 1;
        atual := atual.proximo;
      }
      assert nome !in Nomes(Contents) by {
        assert forall p :: 0 <= p < |Contents| ==> Nomes(Contents)[p] != nome;
      }
      return -1, comparacoes;
    }
  }
}
