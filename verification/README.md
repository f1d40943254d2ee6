# Aimeos CSV processors: product relations and order addresses

This project is a Dafny model of two row-mapping processors from the Aimeos
controller layer, with proofs about how they behave.

**Product-relation processor of the CSV product import**

- The constructor decides which list types the processor accepts.
- `process` reconciles one product's product-to-product list items with the relation chunks of one CSV row:
  - each chunk is validated, and a disallowed type aborts the import with an error;
  - its `product.code` field is split on the configured separator and each piece is trimmed;
  - each code is resolved to a product id, and an unknown code logs a warning;
  - an item with the same type and referenced id is reused, or else a new item is created;
  - the chunk's fields are laid over the item.
- Afterwards every original product-domain item that no chunk confirmed is deleted.
- The row is then handed to the next processor.

**Address processor of the order CSV export**

- It walks the order's address groups in descending key order.
- It emits one line per address.
- Each line holds exactly the mapping's positions, in ascending order.
- Each position holds the address's field of the mapped name, or the empty string when the address has no such field.

Modules:

- `Wrappers`: `Option` and `Result`.
- `Ordering`: the sorted enumeration of a finite set under a strict total order. It stands in for PHP's `ksort` and `krsort`.
- `Text`: PHP's `explode`, `implode` and `trim`.
- `ProductImport`: the product-relation processor.
- `ProductReconcile`: what a run of the product-relation processor guarantees.
- `AddressExport`: the address processor.

Source paths in the table below are relative to the repository root.

## Model

| member | source | states |
|---|---|---|
| ProductImport.AllowedTypes | controller/common/src/Controller/Common/Product/Import/Csv/Processor/Product/Standard.php:78-96 | Without configuration the accepted types are exactly `default` and `suggestion`. A configured list is accepted as a set of its codes. A `null` setting yields only codes of stored list types of domain `product`, and every such code when the search page holds all of them. |
| ProductImport.CheckEntry | controller/common/src/Controller/Common/Product/Import/Csv/Processor/Product/Standard.php:161-174 | A chunk is skipped if and only if it has no `product.code`. It is rejected if and only if it names a truthy type outside the accepted set, and the error carries that type. An accepted chunk uses an allowed type, the default, or a falsy type. |
| ProductImport.FindItem | controller/common/src/Controller/Common/Product/Import/Csv/Processor/Product/Standard.php:138 | The lookup returns the first product-domain item with the given type and referenced id, or none when there is no such item. |
| ProductImport.ApplyCode | controller/common/src/Controller/Common/Product/Import/Csv/Processor/Product/Standard.php:130-145 | An existing match is reused: the same stored item (same id, type and reference) stays at its place with the chunk laid over its fields, it is removed from pending deletion, and no other item changes. Without a match, one new item with the chunk's fields and the resolved reference is appended, and pending deletion is unchanged. Exactly one warning naming the code and the product's code is logged when the code is unknown, and none otherwise. |
| ProductImport.PiecesClean | controller/common/src/Controller/Common/Product/Import/Csv/Processor/Product/Standard.php:128-130 | No code taken from the split and trimmed field contains the separator, and no code starts or ends with a blank character. |
| ProductImport.ApplyChunk | controller/common/src/Controller/Common/Product/Import/Csv/Processor/Product/Standard.php:119-146 | A chunk without a code leaves the state unchanged. A chunk fails exactly when `checkEntry` rejects it. Otherwise each of its trimmed codes is applied in order. |
| ProductImport.ApplyCodesWarnings | controller/common/src/Controller/Common/Product/Import/Csv/Processor/Product/Standard.php:128-136 | The codes of a chunk append exactly one warning per unknown code, in code order. |
| ProductImport.RunChunks | controller/common/src/Controller/Common/Product/Import/Csv/Processor/Product/Standard.php:119-147 | The run fails if and only if some chunk is rejected. The error is that of the first rejected chunk. A successful run only removes positions from pending deletion and never shortens the list. |
| ProductImport.RunChunksKeeps | controller/common/src/Controller/Common/Product/Import/Csv/Processor/Product/Standard.php:119-147 | A successful run keeps every item it started with at its place as the same stored item: same id, domain, type and reference. |
| ProductImport.RunChunksWarnings | controller/common/src/Controller/Common/Product/Import/Csv/Processor/Product/Standard.php:119-147 | A successful run logs the warnings of all its chunks in chunk order. |
| ProductImport.Select | controller/common/src/Controller/Common/Product/Import/Csv/Processor/Product/Standard.php:149 | The kept items and the deleted items are the items at the positions outside and inside the pending set: item `k` of each is the item at the `k`-th such position in ascending order, so list order is kept. |
| ProductImport.SelectPartition | controller/common/src/Controller/Common/Product/Import/Csv/Processor/Product/Standard.php:149 | Every item is either kept or deleted: the two selections together are as long as the list. |
| ProductImport.Process | controller/common/src/Controller/Common/Product/Import/Csv/Processor/Product/Standard.php:109-152 | The processor fails if and only if some chunk with a product code names a truthy type outside the accepted set, with the first such chunk's error. On success the product keeps its code, and the processor returns what the next processor returns when given the reconciled product and the row. |
| ProductReconcile.ProcessReconciles | controller/common/src/Controller/Common/Product/Import/Csv/Processor/Product/Standard.php:116-149 | Afterwards the product-domain relations of the product are exactly those the valid chunks ask for, and each is held by one item only. Every original that is not stale stays in the product as the same stored item, with the same id, type and reference. Items of other domains are neither added nor removed. The deleted items are exactly the original product-domain items that were not reconfirmed. |
| ProductReconcile.ProcessWarnings | controller/common/src/Controller/Common/Product/Import/Csv/Processor/Product/Standard.php:128-136 | The log holds one warning per unknown code of the valid chunks, in order, each naming the product's code. |
| ProductReconcile.ProcessWithoutCodesDeletesAll | controller/common/src/Controller/Common/Product/Import/Csv/Processor/Product/Standard.php:116-123 | With no chunk carrying a code, the import succeeds. Every original product-domain item is deleted and none remains. |
| ProductReconcile.ProcessTwice | controller/common/src/Controller/Common/Product/Import/Csv/Processor/Product/Standard.php:109-152 | Once the imported product has been saved, so that its product-domain items carry their own distinct ids, importing the same row again succeeds, deletes nothing and keeps the same relations. |
| ProductReconcile.TwoCodesTwoItems | controller/common/src/Controller/Common/Product/Import/Csv/Processor/Product/Standard.php:79-145 | With the default configuration (types `default` and `suggestion`, newline separator), the code field "A\nB" on a product without relations creates two items, one per code, deletes nothing and logs nothing. |
| ProductReconcile.RunInv | controller/common/src/Controller/Common/Product/Import/Csv/Processor/Product/Standard.php:116-147 | After all chunks, the original positions keep their type and reference, and every relation asked for has an item. Exactly the stale originals remain pending deletion. |
| Text.JoinSplit | controller/common/src/Controller/Common/Product/Import/Csv/Processor/Product/Standard.php:128 | Joining the pieces of `explode` with the separator gives back the original string. |
| Text.SplitPiecesFree | controller/common/src/Controller/Common/Product/Import/Csv/Processor/Product/Standard.php:128 | No piece of `explode` contains the separator. |
| Text.Trim | controller/common/src/Controller/Common/Product/Import/Csv/Processor/Product/Standard.php:130 | The result is a slice of the input with only blank characters around it. The result neither starts nor ends with a blank. |
| Text.TrimIdempotent | controller/common/src/Controller/Common/Product/Import/Csv/Processor/Product/Standard.php:130 | Trimming twice gives the same as trimming once. |
| AddressExport.GroupOrderDescending | controller/common/src/Controller/Common/Order/Export/Csv/Processor/Address/Standard.php:47 | The address groups are visited in strictly descending key order. |
| AddressExport.GroupOrderUnique | controller/common/src/Controller/Common/Order/Export/Csv/Processor/Address/Standard.php:47 | Any strictly descending listing of the group keys is the visiting order, so the order is determined by the keys alone. |
| AddressExport.Positions | controller/common/src/Controller/Common/Order/Export/Csv/Processor/Address/Standard.php:63 | The mapping's positions are listed once each, in strictly ascending order. |
| AddressExport.LineExact | controller/common/src/Controller/Common/Order/Export/Csv/Processor/Address/Standard.php:54-63 | A line holds every mapping position and no other, each once, in ascending order. |
| AddressExport.LineValues | controller/common/src/Controller/Common/Order/Export/Csv/Processor/Address/Standard.php:52-61 | Each mapped position holds the address's field of the mapped name unchanged when the field exists, and the empty string when it does not. |
| AddressExport.Process | controller/common/src/Controller/Common/Order/Export/Csv/Processor/Address/Standard.php:43-69 | There is one line per address across all groups. An order without addresses yields no lines. |
| AddressExport.ProcessExact | controller/common/src/Controller/Common/Order/Export/Csv/Processor/Address/Standard.php:49-64 | Every exported line holds exactly the mapping's positions, in ascending order. |
| AddressExport.ProcessCell | controller/common/src/Controller/Common/Order/Export/Csv/Processor/Address/Standard.php:47-65 | Address `j` of the `g`-th visited group is exported as the line numbered by the addresses of the earlier groups plus `j`. At each mapped position that line holds the address's field of the mapped name, or the empty string when the address lacks the field. |
| AddressExport.AddressesPlaces | controller/common/src/Controller/Common/Order/Export/Csv/Processor/Address/Standard.php:47-49 | Address `j` of the `g`-th visited group is exported at the number of addresses in the earlier groups plus `j`. Items within a group keep their order. |
| AddressExport.ProcessGroupsDescending | controller/common/src/Controller/Common/Order/Export/Csv/Processor/Address/Standard.php:47-64 | Of two groups, the one with the greater key is visited first. All its lines come before the other's. |
| AddressExport.PaymentBeforeDelivery | controller/common/src/Controller/Common/Order/Export/Csv/Processor/Address/Standard.php:47 | With one payment and one delivery address, the payment address is exported first. |

## Left out

- The storage layer is not modelled: manager creation, list-type search, list-item creation and the persistence of deletions. The product's list is a sequence of items, and deletion is the split into kept and deleted items.
- Pending deletion is keyed by position in the original list rather than by item id. This agrees with keying by id when the original product-domain items have pairwise distinct ids, which is why `ProcessTwice` re-imports into the saved product, not into items without an id. Items created during the run have no id, so removing them from pending deletion has no effect in either form.
- `getMappedChunk` and the import mapping are not modelled. The chunks of the row are an input. The next processor is a function parameter that is given the reconciled product and the row. Whether `getMappedChunk` removes consumed positions from the row is not modelled; the next processor gets the row as given.
- ApplyCode: `addListItem` and the product's list storage are not part of this model. The model assumes that re-adding a reused item replaces it in place, that a new item is appended at the end, and that `getListItem` sees items added earlier in the same run.
- Configure: the separator setting is a parameter. Its source default, a newline, is what `Configure` uses when no separator is configured.
- FindItem: `getListItem` is not part of this model. The model assumes it returns the first product-domain item with the given type and referenced id, and does not model any filtering of inactive items.
- The code cache (`getCache`, `cache->set`, `cache->get`) is a given map from code to product id.
- `addType` is not modelled. It registers a list type in storage and its body is not part of this model.
- The logger is an appended sequence of warnings. Log level, channel and message formatting are left out.
- `fromArray` is modelled as laying the chunk's fields over the item's field map. Its per-key interpretation of `product.lists.*` fields is not part of this model.
- The base class that defines `val`, `getMappedChunk`, `addType` and `getCache` is not part of this model. Chunk lookups (`val`) are taken as plain map lookups with a default, so an empty or `"0"` type passes validation but is used as given. A `null` field value is not representable; a missing key stands for it.
- The separator is a non-empty string. PHP's `explode` rejects an empty separator (an error from PHP 8 on; before that it returns `false` with a warning, so no code is processed), and neither path is modelled.
- A trailing separator gives an empty code. As in the source, it logs a warning and yields an item with no reference.
- When a chunk is rejected partway through a row, the source has already changed the product in memory for the earlier chunks. The model returns only the error.
- The deletion snapshot covers all product-domain list items of every type, as the code does. The configuration documentation says only the configured list types should be updated or removed; the model follows the code and does not model a type-restricted sweep.
- `krsort` is modelled as character-wise comparison of the group keys. PHP compares numeric-string keys numerically, and address types are not numeric.
- `toArray(true)` is not modelled: each address is given as its field map. Field values are strings; other PHP value types are not modelled.
- The invoice argument of the export `process` is unused by the source and is not modelled.
