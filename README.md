# pc-frete: the shipping-fee store and its business rules, in Dafny

pc-frete keeps shipping-fee records (`Frete`). Each is keyed by a business
key (`seller_id`, `sku`) and carries a fee `valor`, an internal `_id` (a
UUID) and audit timestamps. This project models the three layers that hold
the system's behaviour:

- **`AsyncMemoryRepository`** (`memory_repository.dfy`, module
  `MemoryRepository`) is a class whose field `memory` is the ordered list of
  stored records. Each record is a map from field name to value.
  - `Create` appends a record.
  - `FindById` is a first-match loop.
  - `CanFilter` is the early-return filter loop.
  - `Find` filters, sorts key by key from the last cleaned sort key to the
    first, then slices.
  - `Update` merges into the first record whose `str(_id)` matches.
  - `DeleteById` removes every record with the key.

  `Create`, `FindById` and `CanFilter` state their results directly.
  `Find`, `Update` and `DeleteById` are proved against a specification
  function of the old memory. `FindSpec` is the one for `find`. Its order, `Sorting.Ordered`,
  is one stable lexicographic sort of the records that have every key
  (`sorting.dfy`). `Sorting.OrderedStep` and `Sorting.SortedUnique` prove
  that the source's loop of per-key stable sorts produces exactly that
  order.
- **`FreteRepository`** (`frete_repository.dfy`, module
  `FreteRepositories`) holds the store. It adds paginated listing, lookup
  by business key through `find` with the default page, and deletion of
  the first record with the key.
- **`FreteService`** (`frete_service.dfy`, module `FreteServices`) holds the
  business rules: which error wins, which fields a PATCH or a PUT writes,
  and the price range applied to a listed page.
  - The four writing operations (`CreateFrete`, `UpdateFreteValue`,
    `ReplaceFrete`, `DeleteBySellerIdAndSku`) are methods whose answer and
    new store equal a `...Spec` function of the old store, returning a
    `Step(result, store)`.
  - The read-only operations have no `modifies` clause, so they cannot
    change the store. `FindAll` returns `FindAllSpec`. `FindBySellerIdAndSku`
    and `ValidateFreteNaoExiste` return `FindOneSpec`. `ValidateFreteExiste`
    states its outcome directly in terms of `Lookup`.
  - The lemmas prove these properties about those functions:
    - the order of the checks;
    - that a failure writes nothing;
    - the create/find and delete/delete round trips;
    - that the store invariant (every record a well-typed fee with a
      non-negative `valor`, ids unique) is kept;
    - two concrete witnesses. In one, the price range is applied after
      paging. In the other, a PUT creates a duplicate business key.

Supporting modules:
- `Records` (`records.dfy`) holds the value kinds, Python's `dict.get`,
  truthiness, `str()` and `<`.
- `Text` (`text.dfy`) holds `str.strip()` and string order.

Errors are a `Result` with `NotFound`, `Conflict` and `BadRequest`. A clock
reading (`utcnow()`) is an integer parameter `now`. A new record's UUID is a
parameter `newId`.

Behaviour of the code worth noting:
- **Create.** `create_frete` checks for an existing key (Conflict) before
  it checks the fee (BadRequest). An existing key with a negative fee
  therefore gives Conflict.
- **Listing.** The service's `find_all` forwards only a truthy `seller_id`
  to the repository and drops every other filter. It then keeps the page's
  fees in the inclusive price range. So the price range is applied after
  paging, not by the store.
- **PATCH.** A field is written only when its value is truthy, so a PATCH
  with `valor = 0` is silently ignored.
- **Writes.** PATCH and PUT write through the generic `update`, which finds
  the record by `str(_id)`, not by business key. The service hands it a
  plain dict, so the `dict(entity)` branch is the one taken.
- **Deletes.** The repository's `delete_by_seller_id_and_sku` removes one
  record, the first with the key. The generic `delete_by_id` removes every
  record with the key.

## Model

| member | source | states |
|---|---|---|
| Text.StripSpec | app/repositories/base/memory_repository.py:52 | `k.strip()` is the infix of `k` left once leading and trailing white space (Python's `isspace` set) is cut; what is cut is white space, and the result neither starts nor ends with it |
| Sorting.SortByPermutes | app/repositories/base/memory_repository.py:58 | `sorted(results, key=...)` returns a permutation of its input (same multiset) that is sorted by the key, descending when `reverse` is set |
| Sorting.SortByStable | app/repositories/base/memory_repository.py:58 | `sorted` is stable: the records that tie on the key come out in their input order |
| Sorting.SortedUnique | app/repositories/base/memory_repository.py:54-58 | two sequences sorted by the same keys whose tie classes agree are equal, which pins down what a stable multi-key sort can return |
| Sorting.OrderedStep | app/repositories/base/memory_repository.py:54-58 | one iteration of the loop, which drops the records without the key and then stably sorts by that key alone, turns the order by the later keys into the lexicographic order with this key in front |
| Sorting.OrderedSpec | app/repositories/base/memory_repository.py:50-58 | the sorted result holds exactly the records that have every sort key (as a multiset), is ordered lexicographically, and keeps every tie class in input order |
| Sorting.SortedFirstKey | app/repositories/base/memory_repository.py:54-58 | in the sorted result the first sort key is primary: it never goes down (never up when descending) from a record to a later one |
| MemoryRepository.AsyncMemoryRepository.constructor | app/repositories/base/memory_repository.py:16-20 | a new repository has the given key name and an empty memory |
| MemoryRepository.AsyncMemoryRepository.Create | app/repositories/base/memory_repository.py:23-29 | memory grows by exactly the entity stamped with `created_at`, appended at the end; the earlier records are unchanged and the entity itself is returned |
| MemoryRepository.AsyncMemoryRepository.FindById | app/repositories/base/memory_repository.py:31-35 | returns None exactly when no record's key field equals the id, otherwise the first record whose key field equals it; memory is only read |
| MemoryRepository.AsyncMemoryRepository.CanFilter | app/repositories/base/memory_repository.py:37-44 | accepts a record exactly when every filter entry with a non-None value equals the record's field |
| MemoryRepository.FilterByNoneKeepsAll | app/repositories/base/memory_repository.py:37-48 | empty filters, or filters whose values are all None, let every record through, in order |
| MemoryRepository.FilterBySpec | app/repositories/base/memory_repository.py:48 | the filter comprehension yields a subsequence of memory holding exactly the accepted records, each as many times as memory holds it |
| MemoryRepository.CleanSortSpec | app/repositories/base/memory_repository.py:52 | the cleaned sort dict has one entry per stripped name, holding the value of the name's last occurrence, in the order of first occurrences, and every stripped name given occurs in it |
| MemoryRepository.SortKeys | app/repositories/base/memory_repository.py:54-55 | one sort key per cleaned entry, in order, descending exactly when the direction is `-1` |
| MemoryRepository.PageSpec | app/repositories/base/memory_repository.py:61 | `results[offset:offset + limit]` is the run of at most `limit` records starting at `offset`, short only at the end of the list, and a subsequence of it |
| MemoryRepository.AsyncMemoryRepository.SortByKeys | app/repositories/base/memory_repository.py:54-58 | the loop over the keys from the last to the first, dropping records without the key and stably sorting by it, returns the stable lexicographic order `Ordered` of the records that have every key |
| MemoryRepository.AsyncMemoryRepository.Find | app/repositories/base/memory_repository.py:46-64 | the filter loop, the per-key loop over the reversed cleaned keys and the slice together return `FindSpec`: the accepted records that have every key, in stable lexicographic order, paged; memory is only read |
| MemoryRepository.FindWithoutSort | app/repositories/base/memory_repository.py:46-61 | without a sort dict, `find` returns accepted records only, a subsequence of memory of length at most `limit`, namely the accepted records at positions `offset` onward; the page is full (`limit` records) unless the accepted records run out |
| MemoryRepository.FindWithSort | app/repositories/base/memory_repository.py:50-61 | with a sort dict, every record returned is an accepted memory record that has every stripped sort key, the page is sorted lexicographically, and the first key is primary |
| MemoryRepository.FindWholeIsStable | app/repositories/base/memory_repository.py:50-61 | a page that covers the whole list is a permutation of the accepted records that have every key, with every tie class in memory order |
| MemoryRepository.FirstIdIndex | app/repositories/base/memory_repository.py:71-73 | the update loop stops at the first record whose `str(_id)` equals `str(entity_id)`, or at the end when there is none |
| MemoryRepository.UpdatedDoc | app/repositories/base/memory_repository.py:68-75 | the merged record has the old fields and the given ones; given fields overwrite, fields not given keep their old values, and `updated_at` is stamped |
| MemoryRepository.AsyncMemoryRepository.Update | app/repositories/base/memory_repository.py:66-78 | on a match only the first matching record is replaced, by the merge, which is returned, and all other records are unchanged; without one it returns None and memory is unchanged |
| MemoryRepository.RemoveKeyedSpec | app/repositories/base/memory_repository.py:97 | the delete comprehension keeps, in order, exactly the records whose key field differs from the id, each as many times as memory holds it, and none with the id |
| MemoryRepository.AsyncMemoryRepository.DeleteById | app/repositories/base/memory_repository.py:80-97 | NotFound with memory unchanged when no record has the key; otherwise every record with the key is removed |
| MemoryRepository.DeleteByIdLeavesOthers | app/repositories/base/memory_repository.py:97 | after a delete no record with the key is left, and every other record remains, in order and with its number of copies |
| FreteRepositories.FreteRepository.constructor | app/repositories/frete_repository.py:17-18 | a new repository owns a fresh, empty store keyed by `_id` |
| FreteRepositories.FreteRepository.FindAll | app/repositories/frete_repository.py:20-29 | `find` with the filters unchanged and the paginator's limit, offset and sort order |
| FreteRepositories.KeyIndex | app/repositories/frete_repository.py:35-40 | the position of the first record with both the seller and the sku, or the end of the list |
| FreteRepositories.AcceptsKeyFilters | app/repositories/frete_repository.py:35-37 | the filter `{"seller_id": s, "sku": k}` accepts a record exactly when both of its fields match |
| FreteRepositories.Lookup | app/repositories/frete_repository.py:31-40 | absent exactly when no record has both fields; otherwise a stored record with both |
| FreteRepositories.LookupViaFind | app/repositories/frete_repository.py:35-40 | `find` with the key filter, limit 10, offset 0 and no sort is empty exactly when no record has the key, and otherwise starts with the first record that has it |
| FreteRepositories.FreteRepository.FindBySellerIdAndSku | app/repositories/frete_repository.py:31-40 | returns the first record in store order with both fields, or None; the store is only read |
| FreteRepositories.LookupAppend | app/repositories/frete_repository.py:31-40 | after a record is appended, the lookup still finds an earlier match first, and finds the new record when it is the only match |
| FreteRepositories.RemoveFirstKeySpec | app/repositories/frete_repository.py:50 | a delete with a match removes exactly one record, one with the key; the rest remain in order |
| FreteRepositories.RemoveFirstKeyNoMatch | app/repositories/frete_repository.py:47-49 | without a match nothing is removed |
| FreteRepositories.FreteRepository.DeleteBySellerIdAndSku | app/repositories/frete_repository.py:42-50 | NotFound with the store unchanged when no record has the key; otherwise the first record with it is removed |
| FreteServices.ValidateFretesPositivos | app/services/frete/frete_service.py:140-155 | passes exactly when the fee is absent or at least 0 (0 included); fails with BadRequest otherwise |
| FreteServices.PriceFilteredSpec | app/services/frete/frete_service.py:43-47 | the price comprehension keeps, in page order, exactly the fees with `preco_min <= valor <= preco_max`, each as many times as the page holds it, a missing bound imposing nothing |
| FreteServices.FindOneSpec | app/services/frete/frete_service.py:169-183 | NotFound exactly when no record has the key; otherwise the first stored record with it |
| FreteServices.FreteService.constructor | app/services/frete/frete_service.py:19-25 | the service holds the repository it is given |
| FreteServices.FreteService.FindAll | app/services/frete/frete_service.py:27-49 | returns the repository page for `{"seller_id": s}` (or `{}` when `s` is falsy), narrowed to the price range |
| FreteServices.FindAllNarrowsPage | app/services/frete/frete_service.py:35-49 | the listing is a subsequence of the repository page of length at most `limit`, holding exactly the page's fees in the price range, with their numbers of copies; with a truthy `seller_id` every fee is that seller's, and without one the page is unfiltered |
| FreteServices.PriceRangeAfterPaging | app/services/frete/frete_service.py:40-47 | the price range is applied after paging: with limit 1 the listing can be empty although a fee of the seller lies in range |
| FreteServices.FreteService.FindBySellerIdAndSku | app/services/frete/frete_service.py:51-61 | NotFound exactly when the lookup is absent, otherwise the record it found |
| FreteServices.FreteService.ValidateFreteExiste | app/services/frete/frete_service.py:157-167 | fails, with Conflict, exactly when a record with the key is stored |
| FreteServices.FreteService.ValidateFreteNaoExiste | app/services/frete/frete_service.py:169-183 | NotFound exactly when no record with the key is stored; otherwise returns the first one |
| FreteServices.FreteService.CreateFrete | app/services/frete/frete_service.py:63-75 | Conflict, then BadRequest, checked before any write; otherwise the new fee, stamped with `created_at`, is appended |
| FreteServices.CreateChecksConflictFirst | app/services/frete/frete_service.py:71-72 | Conflict exactly when the key exists, even with a negative fee; BadRequest exactly when it does not and the fee is negative; a failed create leaves the store unchanged |
| FreteServices.CreateThenFind | app/services/frete/frete_service.py:63-75 | after a successful create, looking up its key finds the record just stored |
| FreteServices.CreateTwiceConflicts | app/services/frete/frete_service.py:157-167 | creating the same key again, with any fee, is a Conflict and writes nothing |
| FreteServices.FreteService.UpdateFreteValue | app/services/frete/frete_service.py:77-103 | NotFound, then BadRequest, checked before any write; otherwise the found record with its truthy fields taken is written back through `update` under its `_id` |
| FreteServices.UpdateChecksNotFoundFirst | app/services/frete/frete_service.py:88-90 | NotFound exactly when the key is absent, even with a negative fee; BadRequest exactly when it is present and the fee given is negative; a failed PATCH leaves the store unchanged |
| FreteServices.PatchedSpec | app/services/frete/frete_service.py:93-100 | each of `seller_id`, `sku`, `valor` takes the given value exactly when it is truthy and keeps the old one otherwise; every other field is untouched |
| FreteServices.IdIndexUnique | app/services/frete/frete_service.py:103 | with unique ids, `update` keyed by a stored record's `_id` finds that very record |
| FreteServices.UpdateWritesFound | app/services/frete/frete_service.py:77-103 | a successful PATCH replaces, in place, the first record with the key by its patched and stamped copy, returns it, keeps its `_id`, and leaves every other record unchanged |
| FreteServices.PatchWithZeroValorKeepsValor | app/services/frete/frete_service.py:99-100 | a PATCH with `valor = 0` succeeds and leaves the stored fee as it was |
| FreteServices.FreteService.ReplaceFrete | app/services/frete/frete_service.py:105-126 | NotFound, then BadRequest, checked before any write; otherwise the found record with all three fields overwritten is written back under its `_id` |
| FreteServices.ReplaceChecksNotFoundFirst | app/services/frete/frete_service.py:116-118 | NotFound exactly when the key is absent; BadRequest exactly when it is present and the fee is negative; a failed PUT leaves the store unchanged |
| FreteServices.ReplaceWritesFound | app/services/frete/frete_service.py:120-126 | a successful PUT writes the given `seller_id`, `sku` and `valor` into the record found, keeps its `_id`, stamps `updated_at`, and leaves every other record unchanged |
| FreteServices.ReplaceCanDuplicateKey | app/services/frete/frete_service.py:105-126 | the new key of a PUT is not checked: from a store with unique keys, a PUT can succeed and leave two records with the same key |
| FreteServices.FreteService.DeleteBySellerIdAndSku | app/services/frete/frete_service.py:128-138 | NotFound with the store unchanged when the key is absent; otherwise the repository removes the first record with it |
| FreteServices.DeleteOutcome | app/services/frete/frete_service.py:128-138 | NotFound exactly when the key is absent, and then the store is unchanged; otherwise exactly one record with the key is removed and the others remain in order |
| FreteServices.DeleteTwiceNotFound | app/services/frete/frete_service.py:128-138 | with unique keys, deleting a key that was just deleted is NotFound |
| FreteServices.CreatePreservesInvariant | app/services/frete/frete_service.py:63-75 | a create with a fresh id keeps every record a well-typed fee with a non-negative `valor`, and keeps ids unique |
| FreteServices.CreatePreservesUniqueKeys | app/services/frete/frete_service.py:71-75 | a create keeps business keys unique, because it refuses an existing key |
| FreteServices.UpdatePreservesInvariant | app/services/frete/frete_service.py:77-103 | a PATCH keeps the store invariant: fields stay well typed, a written fee is non-negative, and the id is kept |
| FreteServices.ReplacePreservesInvariant | app/services/frete/frete_service.py:105-126 | a PUT keeps the store invariant |
| FreteServices.DeletePreservesInvariant | app/services/frete/frete_service.py:128-138 | a delete keeps the store invariant and keeps business keys unique |

## Left out

- Records.ValueLess: Python's `sorted` raises `TypeError` when it compares values of different kinds, for example an `int` with a `str` under the same sort key. The model orders such values by kind instead, so `find` never fails on a sort.
- FreteServices.FreteService.FindAll: requires each price bound to be absent or an integer. A bound of another type would make Python's comparison raise; that path is not modelled.
- Concurrency: `async`/`await` is modelled as sequential calls. The check-then-write race of `create_frete` (two concurrent creates of one key) is therefore not represented. Under sequential calls, `CreatePreservesUniqueKeys` holds.
- FreteRepositories.FreteRepository.constructor: the source passes database-client arguments to its base. The model gives the repository the in-memory store, keyed by `_id`.
- FreteRepositories.FreteRepository.DeleteBySellerIdAndSku: the document collection's `delete_one` is modelled as removing the first record in store order with both fields. Which record a real database picks is not modelled.
- Model conversion: the source turns stored dicts into objects with `model_class(**entry)` and `Frete(**...)`. The model keeps the record map itself. The service then reads it as a dict, as the source does.
- Frete model: defaults are not modelled. The `Frete` model's defaults for `created_at`, `updated_at` and `identity` are not part of this model. A new record holds `_id`, `seller_id`, `sku` and `valor`. The generic `create` then stamps `created_at`.
- Id generation: `Frete`'s UUID is generated inside the model, which is not part of this model. The id is a parameter `newId` of `CreateFrete`. `CreatePreservesInvariant` requires it to be fresh, which a random UUID is with overwhelming probability but not provably.
- Timestamps: `utcnow()` is the integer parameter `now`, stored as an integer value.
- UUID values are kept as their canonical text. They compare and display as that text.
- Filters: a `None` filters dict is modelled as the empty item sequence. A dict's items are modelled as a sequence in insertion order.
- The read-then-modify aliasing of `update_frete_value` is not modelled. The source mutates the object `find` returned, but `find` builds that object anew. The stored record therefore changes only through `update`, which is what the model does.
- Sorting.SortBy: Python's `sorted` (Timsort) is modelled by a stable insertion sort. Only its result is modelled, and a stable sort's result is unique (`SortedUnique`). Its running time is not.
- Memory repository: the generic repository's shown constructor also takes a `model_class`. Conversion is left out, as above.
