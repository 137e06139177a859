# Backpack and tower inventories in Dafny

This project models the storage, search and sort engine beneath the console
menus of three small C inventory programs:

- **Adventurer** (`Desafio-aventureiro-sobrevivencia.c`). Items (`nome`,
  `tipo`, `quantidade`) live in one of two interchangeable backpacks:
  - `MochilaVetor`, a fixed array of `MAX` = 100 items and a counter
    `tamanho`. It has append, removal by left shift, counted sequential
    search, bubble sort by name and counted binary search by name.
  - `MochilaLista`, a singly linked list. It has head prepend, splice-out
    removal and counted positional search.
- **Master** (`Desafio-mestre-sobrevivencia.c`). Tower components (`nome`,
  `tipo`, `prioridade`) are kept in an array of 20. The program has:
  - three in-place sorts that count their comparisons: bubble sort by name,
    insertion sort by type and selection sort by priority;
  - the same binary search;
  - the state in `main`, where registration is capped at 20 and the
    `ordenadoPorNome` flag lets the key-component search run only after a
    sort by name.
- **Novice** (`Desafio-novato-sobrevivencia.c`). A global array of
  `MAX_ITENS` = 10 items and the counter `totalItens`. It has append,
  removal by overwriting with the last item, and first-match lookup.

`strcmp` is modelled as `StrOrder.StrCmp`, a lexicographic three-way
comparison of `seq<char>`. The C standard fixes only the sign of the
result, so the model answers -1, 0 or 1. Its order properties are proved
once and shared by every sort and search:
- flipping the arguments flips the sign;
- it is transitive, total and antisymmetric.

The code changes state in place, and the model keeps that form:
- each backpack and the tower state is a `class` over an `array` or linked
  `No` nodes, with `modifies` clauses;
- every loop is a `while` loop with its invariants.

Each sorting or searching method is proved equal to a function over
sequences that follows the same steps. For example, `Bolha` runs the
bubble-sort passes, `Ordena` / `Varre` do the insertion steps, `Selecao`
does the selection rounds and `BuscaBinaria` halves the range. Lemmas about
those functions prove what the programs promise:
- sorted order and permutation;
- stability of the insertion sort;
- exact or bounded comparison counts;
- binary search completeness on sorted input.

Modules:
- `StrOrder` (`str_order.dfy`): the order, `Sorted`, `IndexOf`, the
  counting functions and the shared binary search.
- `Aventureiro` (`aventureiro_vetor.dfy`): `Item`, the bubble-sort model
  and `MochilaVetor`.
- `AventureiroLista` (`aventureiro_lista.dfy`): `No` and `MochilaLista`.
- `Mestre` (`mestre.dfy`): `Componente` and the three counting sorts with
  their models, plus `BuscaBinariaPorNome`.
- `MestreTorre` (`mestre_torre.dfy`): the state of the master `main`.
- `Novato` (`novato.dfy`): the novice global array as the class `Mochila`.

## Model

| member | source | states |
|---|---|---|
| StrOrder.StrCmp | Desafio-aventureiro-sobrevivencia.c:58 | the `strcmp` stand-in answers -1, 0 or 1, and 0 exactly when the two strings are equal |
| StrOrder.StrCmpFlip | Desafio-aventureiro-sobrevivencia.c:99 | comparing the other way round gives the opposite sign |
| StrOrder.LeTrans | Desafio-aventureiro-sobrevivencia.c:99 | "not after" under `strcmp` is transitive |
| StrOrder.GtGivesLe | Desafio-aventureiro-sobrevivencia.c:99 | a pair the sort swaps (`strcmp > 0`) is in order once swapped and was out of order before |
| StrOrder.LtNotGe | Desafio-aventureiro-sobrevivencia.c:122-123 | a name strictly before the key is not after it, so the search may drop the left half |
| StrOrder.LeTotal | Desafio-aventureiro-sobrevivencia.c:99 | any two names are ordered one way or the other |
| StrOrder.LeAntisym | Desafio-aventureiro-sobrevivencia.c:99 | names ordered both ways are equal |
| StrOrder.IndexOf | Desafio-aventureiro-sobrevivencia.c:84-90 | the first position holding the name: it holds the name, no earlier one does, and -1 exactly when the name is absent |
| StrOrder.TriClosed | Desafio-mestre-sobrevivencia.c:45-46 | 1 + 2 + ... + m equals m(m+1)/2, the closed form of the nested-loop comparison counts |
| StrOrder.BitsIsLog | Desafio-mestre-sobrevivencia.c:108-121 | `Bits(n)` is floor(log2 n) + 1, so 2^(Bits(n)-1) <= n < 2^Bits(n) |
| StrOrder.BitsMonotone | Desafio-mestre-sobrevivencia.c:108-121 | a larger range never needs fewer halving steps |
| StrOrder.Halving | Desafio-mestre-sobrevivencia.c:110-120 | `mid` lies in `[low, high]`, and both remaining halves need one halving step fewer than the range |
| StrOrder.BuscaBinariaAchou | Desafio-aventureiro-sobrevivencia.c:116-128 | an index the halving search returns lies in the searched range and holds the key |
| StrOrder.BuscaBinariaCompleta | Desafio-aventureiro-sobrevivencia.c:116-128 | on sorted names a -1 answer means no name in the range equals the key |
| StrOrder.BuscaBinariaCusto | Desafio-aventureiro-sobrevivencia.c:116-117 | the search makes at most floor(log2 size) + 1 comparisons, and at least one on a non-empty range |
| StrOrder.BuscaBinariaCorreta | Desafio-mestre-sobrevivencia.c:105-122 | over a whole list: a returned index holds the key; on sorted names -1 exactly when the key is absent; between 1 and floor(log2 n) + 1 comparisons when n >= 1 |
| Aventureiro.Without | Desafio-aventureiro-sobrevivencia.c:59-62 | removal at `i` keeps the elements before `i` and moves each later element one place left |
| Aventureiro.WithoutMultiset | Desafio-aventureiro-sobrevivencia.c:56-67 | removal at `i` takes exactly that one item out of the multiset |
| Aventureiro.Swap | Desafio-aventureiro-sobrevivencia.c:100-102 | the exchange through `temp` swaps the two slots and changes nothing else |
| Aventureiro.SwapMultiset | Desafio-aventureiro-sobrevivencia.c:100-102 | a swap keeps the multiset of items |
| Aventureiro.StepMultiset | Desafio-aventureiro-sobrevivencia.c:99-103 | one compare-and-swap step keeps the multiset |
| Aventureiro.SwapStep | Desafio-aventureiro-sobrevivencia.c:99-103 | a swap carries the largest name seen so far one place right and keeps the sorted tail above it |
| Aventureiro.KeepStep | Desafio-aventureiro-sobrevivencia.c:99 | without a swap, the right element of the pair is the largest name seen so far |
| Aventureiro.ClosePass | Desafio-aventureiro-sobrevivencia.c:98 | at the end of a pass the largest name joins the sorted tail |
| Aventureiro.PassMultiset | Desafio-aventureiro-sobrevivencia.c:98-104 | an inner pass keeps the multiset |
| Aventureiro.PassSuffix | Desafio-aventureiro-sobrevivencia.c:98 | an inner pass over `[0, m)` leaves the positions from `m` on untouched |
| Aventureiro.PassCarriesMax | Desafio-aventureiro-sobrevivencia.c:98-104 | an inner pass moves the largest name of the unsorted part to its end, so the sorted tail grows by one |
| Aventureiro.BubbleSorts | Desafio-aventureiro-sobrevivencia.c:97-105 | the remaining outer passes leave `itens[0 .. tamanho)` name-sorted |
| Aventureiro.BubbleMultiset | Desafio-aventureiro-sobrevivencia.c:97-105 | the outer passes keep the multiset |
| Aventureiro.BubbleSuffix | Desafio-aventureiro-sobrevivencia.c:97 | the sort leaves the slots from `tamanho` on untouched |
| Aventureiro.BubbleSortCorrect | Desafio-aventureiro-sobrevivencia.c:96-106 | the bubble sort of the first `n` items is name-sorted and a permutation of them, and the rest is unchanged |
| Aventureiro.BubblePass | Desafio-aventureiro-sobrevivencia.c:98-104 | the inner loop on the array computes exactly one pass of the sequence model |
| Aventureiro.PrefixMultiset | Desafio-aventureiro-sobrevivencia.c:97-105 | equal multisets and equal untouched suffixes give equal multisets of the prefixes |
| Aventureiro.MochilaVetor.constructor | Desafio-aventureiro-sobrevivencia.c:37-39 | `initVetor` gives an empty backpack |
| Aventureiro.MochilaVetor.InserirItem | Desafio-aventureiro-sobrevivencia.c:44-50 | succeeds exactly when `tamanho < 100`; then the item is appended; otherwise nothing changes; no other slot changes either way |
| Aventureiro.MochilaVetor.Deslocar | Desafio-aventureiro-sobrevivencia.c:59-61 | the shift loop leaves the first `tamanho - 1` slots holding the items without the one at `i`, in order |
| Aventureiro.MochilaVetor.RemoverItem | Desafio-aventureiro-sobrevivencia.c:56-67 | succeeds exactly when some item has the name; it removes the first such item and keeps the order of the rest; otherwise count and array are unchanged |
| Aventureiro.MochilaVetor.BuscarSequencial | Desafio-aventureiro-sobrevivencia.c:82-91 | returns the first index holding the name, or -1; counts index + 1 comparisons, or `tamanho` when the name is absent |
| Aventureiro.MochilaVetor.Ordenar | Desafio-aventureiro-sobrevivencia.c:96-106 | the array ends as the bubble-sort model says; the items in use are name-sorted and a permutation of the old ones; `tamanho` is unchanged |
| Aventureiro.MochilaVetor.BuscarBinaria | Desafio-aventureiro-sobrevivencia.c:112-129 | index and comparison count are those of the halving search over the item names, whose meaning `BuscaBinariaCorreta` gives |
| AventureiroLista.No.constructor | Desafio-aventureiro-sobrevivencia.c:147-148 | a new node holds the item and points at the given successor |
| AventureiroLista.MochilaLista.constructor | Desafio-aventureiro-sobrevivencia.c:134-136 | `initLista` gives the empty list |
| AventureiroLista.MochilaLista.InserirItem | Desafio-aventureiro-sobrevivencia.c:142-151 | after a successful allocation a fresh node with the item becomes the head, so the contents are `[it] + old contents`; after a failed one the list is unchanged |
| AventureiroLista.MochilaLista.Desligar | Desafio-aventureiro-sobrevivencia.c:162-166 | unlinking the k-th node through `prev->proximo`, or through `inicio` for the head, removes exactly that node and item and keeps the chain well formed |
| AventureiroLista.MochilaLista.RemoverItem | Desafio-aventureiro-sobrevivencia.c:157-174 | succeeds exactly when some node has the name; it removes the first such node and keeps the order of the others; otherwise the list is unchanged |
| AventureiroLista.MochilaLista.BuscarSequencial | Desafio-aventureiro-sobrevivencia.c:191-204 | returns the head-to-tail position of the first match, or -1; counts position + 1 comparisons, or the list length when the name is absent |
| Mestre.Swap | Desafio-mestre-sobrevivencia.c:49-51 | the exchange through `temp` swaps the two slots and changes nothing else |
| Mestre.TrocaMultiset | Desafio-mestre-sobrevivencia.c:49-51 | a swap keeps the multiset of components |
| Mestre.PrefixMultiset | Desafio-mestre-sobrevivencia.c:44-54 | equal multisets and equal untouched suffixes give equal multisets of the prefixes |
| Mestre.RoundsClosed | Desafio-mestre-sobrevivencia.c:45-47 | n-1 passes of n-1, n-2, ..., 1 comparisons make n(n-1)/2 |
| Mestre.RoundsTri | Desafio-mestre-sobrevivencia.c:45-47 | the comparisons of the first passes plus those still to come make `Tri(n - 1)` |
| Mestre.PassoTroca | Desafio-mestre-sobrevivencia.c:48-52 | a swap carries the largest name seen so far one place right and keeps the sorted tail above it |
| Mestre.PassoMantem | Desafio-mestre-sobrevivencia.c:48 | without a swap, the right element of the pair is the largest name seen so far |
| Mestre.FechaPassagem | Desafio-mestre-sobrevivencia.c:46 | at the end of a pass the largest name joins the sorted tail |
| Mestre.PassoMultiset | Desafio-mestre-sobrevivencia.c:48-52 | one compare-and-swap step keeps the multiset |
| Mestre.PassagemMultiset | Desafio-mestre-sobrevivencia.c:46-53 | an inner pass keeps the multiset |
| Mestre.PassagemSufixo | Desafio-mestre-sobrevivencia.c:46 | an inner pass over `[0, m)` leaves the positions from `m` on untouched |
| Mestre.PassagemLeva | Desafio-mestre-sobrevivencia.c:46-53 | an inner pass moves the largest name of the unsorted part to its end, so the sorted tail grows by one |
| Mestre.BolhaOrdena | Desafio-mestre-sobrevivencia.c:45-54 | the remaining outer passes leave `comps[0 .. n)` name-sorted |
| Mestre.BolhaMultiset | Desafio-mestre-sobrevivencia.c:45-54 | the outer passes keep the multiset |
| Mestre.BolhaSufixo | Desafio-mestre-sobrevivencia.c:45 | the sort leaves the slots from `n` on untouched |
| Mestre.BubbleSortCorreto | Desafio-mestre-sobrevivencia.c:43-55 | the bubble sort of `comps[0 .. n)` is name-sorted and a permutation of it, and the rest is unchanged |
| Mestre.PassagemNome | Desafio-mestre-sobrevivencia.c:46-53 | the inner loop on the array computes one pass of the sequence model and adds n - i - 1 comparisons |
| Mestre.BubbleSortNome | Desafio-mestre-sobrevivencia.c:43-55 | the array ends as the bubble-sort model says, and the count is exactly n(n-1)/2 (0 for n <= 1) |
| Mestre.InsereRecursao | Desafio-mestre-sobrevivencia.c:65-73 | the key passes the last element of the prefix exactly when that element's type sorts strictly after the key's |
| Mestre.InsereMultiset | Desafio-mestre-sobrevivencia.c:62-75 | one insertion step adds exactly the key to the multiset of the prefix |
| Mestre.InsereLimitado | Desafio-mestre-sobrevivencia.c:62-75 | inserting keeps every type at or below a common bound |
| Mestre.InsereOrdena | Desafio-mestre-sobrevivencia.c:62-75 | inserting the key into a type-sorted prefix gives a type-sorted prefix |
| Mestre.InsertionSortCorreto | Desafio-mestre-sobrevivencia.c:61-77 | the insertion sort is type-sorted and a permutation of its input |
| Mestre.MesmoTipoConcat | Desafio-mestre-sobrevivencia.c:61-77 | picking the components of one type distributes over concatenation |
| Mestre.InsereEstavel | Desafio-mestre-sobrevivencia.c:67 | the key never passes a component of its own type, because only a strict `> 0` shifts |
| Mestre.InsertionSortEstavel | Desafio-mestre-sobrevivencia.c:61-77 | for every type, the components of that type keep their relative order (stability) |
| Mestre.CustoInsereLimites | Desafio-mestre-sobrevivencia.c:65-73 | step `i` costs between 1 and `i` comparisons |
| Mestre.CustoInsertionSortLimites | Desafio-mestre-sobrevivencia.c:61-77 | for n >= 1 the count lies between n-1 and n(n-1)/2 |
| Mestre.CustoInsertionSortTri | Desafio-mestre-sobrevivencia.c:61-77 | for n >= 1 the count lies between n-1 and 1 + 2 + ... + (n-1) |
| Mestre.InsereEm | Desafio-mestre-sobrevivencia.c:65-74 | when the inner loop stops at `j`, the key lands at `j + 1`; the step costs shifts + 1, or exactly `i` when `j` reaches -1 |
| Mestre.InsereNaPosicao | Desafio-mestre-sobrevivencia.c:74 | the key written at `j + 1` gives the prefix with the key inserted there |
| Mestre.Encaixe | Desafio-mestre-sobrevivencia.c:68-74 | after the shifts and the final write, the array is the old prefix up to `j`, the key, the shifted elements, then the untouched rest |
| Mestre.VarreFim | Desafio-mestre-sobrevivencia.c:65-74 | when the shifting stops, writing the key completes the model's insertion step |
| Mestre.VarreGeral | Desafio-mestre-sobrevivencia.c:65-74 | from any state of the inner loop, the rest of the loop completes the insertion step, and the comparisons made plus those left equal the step's cost |
| Mestre.VarreInsere | Desafio-mestre-sobrevivencia.c:62-74 | one outer step of the array loop inserts `comps[i]` into the sorted prefix at exactly the model's cost |
| Mestre.InsereChave | Desafio-mestre-sobrevivencia.c:62-74 | the `key` and shifting-`j` loop on the array computes one outer step and adds its comparisons |
| Mestre.InsertionSortUm | Desafio-mestre-sobrevivencia.c:62 | a one-element prefix is already sorted at no cost |
| Mestre.PassoInsertion | Desafio-mestre-sobrevivencia.c:62-76 | one outer step extends the sorted prefix and its cost by one element |
| Mestre.OrdenaGeral | Desafio-mestre-sobrevivencia.c:62-76 | the outer steps still to run finish sorting `comps[0 .. n)`, and the counts add up to the model's |
| Mestre.InsertionSortArranjo | Desafio-mestre-sobrevivencia.c:61-77 | the array-shaped run equals the insertion-sort model on `comps[0 .. n)`, with the rest unchanged and the same count |
| Mestre.InsertionSortTipo | Desafio-mestre-sobrevivencia.c:61-77 | `comps[0 .. n)` becomes its insertion sort by type and the rest is unchanged; the count is the model's |
| Mestre.MenorDesdeMinimo | Desafio-mestre-sobrevivencia.c:85-90 | `min_idx` ends on the first position with the least priority in `comps[i .. n)` |
| Mestre.PassoSelecao | Desafio-mestre-sobrevivencia.c:84-96 | after round `i` the prefix up to `i` is priority-sorted and no later priority is smaller |
| Mestre.SelecaoOrdena | Desafio-mestre-sobrevivencia.c:84-97 | the remaining rounds leave `comps[0 .. n)` sorted by priority |
| Mestre.SelecaoMultiset | Desafio-mestre-sobrevivencia.c:84-97 | the rounds keep the multiset |
| Mestre.SelecaoSufixo | Desafio-mestre-sobrevivencia.c:84 | the rounds leave the slots from `n` on untouched |
| Mestre.SelectionSortCorreto | Desafio-mestre-sobrevivencia.c:83-99 | the selection sort of `comps[0 .. n)` is priority-sorted and a permutation of it, and the rest is unchanged |
| Mestre.MenorPrioridade | Desafio-mestre-sobrevivencia.c:85-90 | the inner loop finds the model's `min_idx` and adds n - i - 1 comparisons |
| Mestre.SelectionSortPrioridade | Desafio-mestre-sobrevivencia.c:83-99 | the array ends as the selection-sort model says, and the count is exactly n(n-1)/2 whatever the input order |
| Mestre.BuscaBinariaPorNome | Desafio-mestre-sobrevivencia.c:105-122 | index and comparison count are those of the halving search over `comps[0 .. n)`'s names |
| MestreTorre.Torre.constructor | Desafio-mestre-sobrevivencia.c:139-142 | `main` starts with no components and the flag down |
| MestreTorre.Torre.Cadastrar | Desafio-mestre-sobrevivencia.c:163-169 | registration succeeds exactly below 20 components; it appends and lowers the flag; at 20 nothing changes; the count never exceeds 20 |
| MestreTorre.Torre.Ordenar | Desafio-mestre-sobrevivencia.c:172-185 | the chosen sort permutes the components, and the flag ends up exactly when the name sort ran. After the name sort: name-sorted, n(n-1)/2 comparisons. After the type sort: the insertion-sort model and its count. After the priority sort: priority-sorted, n(n-1)/2 comparisons |
| MestreTorre.Torre.BuscarChave | Desafio-mestre-sobrevivencia.c:187-201 | refused exactly when the flag is down; otherwise a found index holds the name, "not found" means no component has it, and the count is between 1 and floor(log2 n) + 1 |
| Novato.TrocaComUltimoMultiset | Desafio-novato-sobrevivencia.c:69-70 | overwriting slot `i` with the last item and dropping the last slot takes exactly `mochila[i]` out of the multiset |
| Novato.Mochila.constructor | Desafio-novato-sobrevivencia.c:13-15 | the program starts with an empty backpack of capacity 10 |
| Novato.Mochila.InserirItem | Desafio-novato-sobrevivencia.c:24-48 | succeeds exactly when `totalItens < 10`; then the item is written at the old count and the count grows; no other slot changes; a full backpack is left as it is |
| Novato.Mochila.SobrescreverComUltimo | Desafio-novato-sobrevivencia.c:69-70 | slot `i` takes the last item in use and the count drops by one; every other slot is unchanged |
| Novato.Mochila.RemoverItem | Desafio-novato-sobrevivencia.c:51-79 | on an empty backpack or an absent name nothing changes. Otherwise the first match is overwritten by the last item, the count drops by one and the multiset loses exactly that item |
| Novato.Mochila.BuscarItem | Desafio-novato-sobrevivencia.c:99-126 | "empty" exactly when there are no items; found exactly when some item has the name; then it reports the first such index and its item |

## Left out

- Console I/O is not modelled:
  - prompts and reads: `printf`, `scanf`, `fgets`, `getchar`, `limparBuffer`, `lerItem`, `lerNome`, `lerComponente`;
  - the listing routines: `listarVetor`, `listarLista`, `listarItens`, `mostrarComponentes`;
  - the menu loops.

  The text an operation reads is a parameter of its method. The message it prints is the method's result (`ok`, `Remocao`, `Consulta`, `Busca`).
- `medirTempoOrdenacao` (Desafio-mestre-sobrevivencia.c:127-134) is modelled only as "run the chosen sort and report its count": `MestreTorre.Torre.Ordenar` dispatches on the `Algoritmo` value where the C code uses a function pointer. The `clock()` readings and the floating-point time are not modelled.
- `malloc` is not modelled. Its success or failure is the `alocou` parameter of `AventureiroLista.MochilaLista.InserirItem`.
- `free` is not modelled. `RemoverItem` only unlinks the node: the ghost node sequence loses exactly that node. The final `free` loop of the adventurer `main` (Desafio-aventureiro-sobrevivencia.c:358-363) is not modelled.
- The `char[30]` and `char[20]` buffers are not modelled: names and types are unbounded `seq<char>`. So are `scanf("%s")` overflow, the newline stripping and `fgets` truncation.
- `StrOrder.StrCmp`: only the sign of `strcmp` is modelled. The magnitude C leaves to the library is not.
- C `int` is not modelled as a fixed-width type. Counts and indices are unbounded `nat`/`int`, and their values never exceed 100 here, or 100·99/2 for comparison counts.
- Novato reuses the adventurer `Item` record, which has the same three fields. Its global `mochila` and `totalItens` are the fields of one `Novato.Mochila` object.
- The `break` of `insertionSortTipo`'s inner loop (Desafio-mestre-sobrevivencia.c:70) becomes a `para` flag in `Mestre.InsereChave`.
- The master `Componente` priority range (1 to 10) is not modelled. The program does not enforce it, so priorities are any `int`.
- `Aventureiro.MochilaVetor.BuscarBinaria` and `Mestre.BuscaBinariaPorNome` do not require sorted input, just as the C code does not check order. What their answer means on sorted input is proved by `StrOrder.BuscaBinariaCorreta`; `MestreTorre.Torre.BuscarChave` applies it under the flag.
