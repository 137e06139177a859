/**
 * The state `main` keeps in the master variant: at most 20 components in
 * `componentes[0 .. numComponentes)` and the flag `ordenadoPorNome`, which
 * lets the key-component binary search run only after a sort by name.
 */
module MestreTorre {
  import opened StrOrder
  import opened Mestre

  /** Capacity of the component array in `main`. */
  const CAPACIDADE: nat := 20

  /** The sort chosen in the menu (options 2, 3 and 4), as handed to `medirTempoOrdenacao`. */
  datatype Algoritmo = BubbleNome | InsertionTipo | SelectionPrioridade

  /** Outcome of option 5. */
  datatype Busca =
    | NaoOrdenado                                   // "sort by name first"
    | Encontrado(posicao: nat, comparacoes: nat)    // the assembly may proceed
    | NaoEncontrado(comparacoes: nat)               // the assembly is blocked

  class Torre {
    var componentes: array<Componente>
    var numComponentes: nat
    var ordenadoPorNome: bool

    /** The count stays within capacity, and the flag is only up while the components are in name order. */
    ghost predicate Valid()
      reads this, componentes
    {
      && componentes.Length == CAPACIDADE
      && numComponentes <= CAPACIDADE
      && (ordenadoPorNome ==> Sorted(NomesDe(componentes[..numComponentes])))
    }

    /** The registered components. */
    ghost function Contents(): seq<Componente>
      reads this, componentes
      requires Valid()
    {
      componentes[..numComponentes]
    }

    /** The start of `main`: no components and the flag down. */
    constructor ()
      ensures Valid() && fresh(componentes)
      ensures Contents() == [] && !ordenadoPorNome
    {
      componentes := new Componente[CAPACIDADE](_ => Componente([], [], 0));
      numComponentes := 0;
      ordenadoPorNome := false;
    }

    /**
     * Option 1: stores `c` in the next free slot and lowers the flag; at 20
     * components nothing changes and the registration is refused.
     */
    method Cadastrar(c: Componente) returns (ok: bool)
      requires Valid()
      modifies this, componentes
      ensures Valid() && componentes == old(componentes)
      ensures ok == (old(numComponentes) < CAPACIDADE)
      ensures ok ==> Contents() == old(Contents()) + [c] && !ordenadoPorNome
      ensures !ok ==> numComponentes == old(numComponentes) && ordenadoPorNome == old(ordenadoPorNome)
                      && componentes[..] == old(componentes[..])
    {
      if numComponentes < CAPACIDADE {
        componentes[numComponentes] := c;
        numComponentes := numComponentes + 1;
        ordenadoPorNome := false;
        return true;
      }
      return false;
    }

    /**
     * Options 2 to 4 through `medirTempoOrdenacao`: runs the chosen sort on
     * the registered components and reports its comparison count. The flag
     * goes up after the name sort and down after the other two.
     */
    method Ordenar(alg: Algoritmo) returns (comparacoes: nat)
      requires Valid()
      modifies this, componentes
      ensures Valid() && componentes == old(componentes) && numComponentes == old(numComponentes)
      ensures multiset(Contents()) == multiset(old(Contents()))
      ensures ordenadoPorNome == alg.BubbleNome?
      ensures alg.BubbleNome? ==> Sorted(NomesDe(Contents()))
                                  && 2 * comparacoes == numComponentes * (numComponentes - 1)
      ensures alg.InsertionTipo? ==> Contents() == InsertionSort(old(Contents())) && SortedTipo(Contents())
                                     && comparacoes == CustoInsertionSort(old(Contents()))
      ensures alg.SelectionPrioridade? ==> SortedPrioridade(Contents())
                                           && 2 * comparacoes == numComponentes * (numComponentes - 1)
    {
      match alg {
        case BubbleNome =>
          comparacoes := BubbleSortNome(componentes, numComponentes);
          BubbleSortCorreto(old(componentes[..]), numComponentes);
          ordenadoPorNome := true;
        case InsertionTipo =>
          comparacoes := InsertionSortTipo(componentes, numComponentes);
          InsertionSortCorreto(old(Contents()));
          ordenadoPorNome := false;
        case SelectionPrioridade =>
          comparacoes := SelectionSortPrioridade(componentes, numComponentes);
          SelectionSortCorreto(old(componentes[..]), numComponentes);
          ordenadoPorNome := false;
      }
    }

    /**
     * Option 5: refuses unless the flag is up; otherwise binary search for
     * `nome`. Because the flag guarantees name order, "not found" means no
     * registered component has that name.
     */
    method BuscarChave(nome: seq<char>) returns (r: Busca)
      requires Valid()
      ensures r.NaoOrdenado? <==> !ordenadoPorNome
      ensures r.Encontrado? ==> r.posicao < numComponentes && componentes[r.posicao].nome == nome
      ensures r.NaoEncontrado? <==> ordenadoPorNome && nome !in NomesDe(Contents())
      ensures !r.NaoOrdenado? ==> r.comparacoes <= Bits(numComponentes)
                                  && (numComponentes >= 1 ==> 1 <= r.comparacoes)
    {
      if !ordenadoPorNome {
        return NaoOrdenado;
      }
      var resultado, comparacoes := BuscaBinariaPorNome(componentes, numComponentes, nome);
      ghost var s := NomesDe(componentes[..numComponentes]);
      BuscaBinariaCorreta(s, nome);
      assert resultado == BuscaBinaria(s, nome, 0, |s| - 1).0;
      assert comparacoes == BuscaBinaria(s, nome, 0, |s| - 1).1;
      if resultado != -1 {
        assert s[resultado] == nome;
        return Encontrado(resultado, comparacoes);
      }
      return NaoEncontrado(comparacoes);
    }
  }
}
