# Storefront models: resolution gate, latest products, category sidebar

A Dafny model of the behaviour in the Django models file of a small
storefront (`shop/oneapp/models.py`). Almost all of that file is schema.
The model covers the three parts that make decisions:

- **`Product.save`** (module `ProductImages`, `product_save.dfy`). The decoded
  image's `(height, width)` goes through two checks. The low bound (400, 400)
  is checked first. Then the high bound (800, 800) is checked. Either failure
  is an error outcome (`MinResolutionError`, `MaxResolutionError`) and nothing
  is written. Otherwise the row goes into a `ProductTable`. This is a class,
  one instance per concrete kind (Notebook, Smartphones), whose `rows` map (primary key to product) is replaced on an accepted save.
  Its invariant `Valid()` says every stored row's image is within bounds.
- **`LatestProductsManager.get_products_for_main_page`** (module
  `LatestProducts`, `latest_products.dfy`). The content-type registry is a
  sequence of `Entry(model, ids)`. A product is an `Item(model, id)`. The
  method `GetProductsForMainPage` runs the source's `for`/`extend` loop over
  the registry entries whose model is requested. The entries come in registry
  order. Each entry contributes `Latest(e)`, its at most five largest ids,
  largest first. The result is the function `MainPage`. When
  `with_respect_to` passes its three tests, `Prioritize` reorders the list.
  It is the stable `sorted(..., reverse=True)` on the key
  `model_name.startswith(with_respect_to)`. Items whose key is true come
  first, and each group keeps its order.
- **`CategoryManager.get_categories_for_left_sidebar`** with
  `get_models_for_count` (module `Categories`, `categories.dfy`). The
  `annotate(...).values()` rows carry one count column per
  `Count(relation)`, named `<relation>__count`. Each row becomes
  `SidebarEntry(name, slug, count)`. The count column comes from the fixed
  table `CATEGORY_NAME_COUNT_NAME`. A missing key fails with a
  `KeyError` result on the first row that cannot be resolved.

`Wrappers` (`wrappers.dfy`) holds the `Option` and `Result` datatypes. They
stand in for Python's `None` and for raised exceptions.

Three details of the code that are easy to misread:

- `ContentType` has no default ordering, so the query
  `ContentType.objects.filter(model__in=args)` returns entries in whatever
  order the database gives. The registry sequence stands for that order.
  The collected list follows it, not the order of the requested names
  (`RegistryOrder`). `MainPageNamesOnly` assumes that two queries return
  the registry in the same order.
- An image with one axis below 400 and the other above 800 gets the
  min-resolution error. The "too high" outcome needs both axes at 400 or more.
- The priority key is a prefix test (`startswith`), not an equality test.

## Model

| member | source | states |
|---|---|---|
| `ProductImages.CheckResolution` | shop/oneapp/models.py:106-111 | the min error exactly when some axis is below 400 (so it wins over the max check); the max error exactly when both axes are at least 400 and some axis is above 800; saving exactly when both axes lie in the inclusive band [400, 800] |
| `ProductImages.ProductTable.Save` | shop/oneapp/models.py:103-123 | the outcome is the gate's verdict; the table changes only on acceptance, then by writing the row under its primary key; the table invariant (every stored row is of the table's kind and its image is within bounds) is kept |
| `LatestProducts.MaxId` | shop/oneapp/models.py:39 | the result is a key of the table and no key is larger |
| `LatestProducts.Without` | shop/oneapp/models.py:39 | the result holds exactly the keys other than the removed one, and is shorter when that key was present |
| `LatestProducts.LatestIds` | shop/oneapp/models.py:39 | `order_by('-id')[:k]`: at most k keys of the table, strictly decreasing; every key left out is smaller than every key kept; fewer than k only when the whole table fits |
| `LatestProducts.LatestSpec` | shop/oneapp/models.py:39-40 | one entry contributes at most 5 items, all of its own model and table, strictly newest first; every row left out is older than every row kept; fewer than 5 only when all rows are included |
| `LatestProducts.Matching` | shop/oneapp/models.py:37 | the entries kept are exactly the registry entries whose model is requested, none added |
| `LatestProducts.GetProductsForMainPage` | shop/oneapp/models.py:34-47 | the loop builds the concatenation of each matched entry's contribution, in registry order; the returned list is that list, or its priority reorder when the three conditions hold |
| `LatestProducts.CollectedSpec` | shop/oneapp/models.py:36-40 | the collected list has at most 5 items per matched entry, and each item is a row of a matched entry's model |
| `LatestProducts.MatchingNamesOnly` | shop/oneapp/models.py:37 | the registry lookup depends only on which names are requested, not on their order or repetition |
| `LatestProducts.MainPageNamesOnly` | shop/oneapp/models.py:34-47 | the whole result is the same for any two requests naming the same set of models |
| `LatestProducts.MatchingUnknownName` | shop/oneapp/models.py:37 | requesting a name the registry lacks adds no entry |
| `LatestProducts.UnknownNameIgnored` | shop/oneapp/models.py:37-47 | a requested name with no registry entry contributes nothing, raises nothing and leaves the result unchanged |
| `LatestProducts.NoNamesNoProducts` | shop/oneapp/models.py:36-40 | no requested names give an empty list, whatever `with_respect_to` is |
| `LatestProducts.NoReorderKeepsCollected` | shop/oneapp/models.py:41-47 | unless `with_respect_to` is non-empty, known to the registry and requested, the collected list is returned unchanged, the same as with no `with_respect_to` |
| `LatestProducts.ReorderSpec` | shop/oneapp/models.py:41-46 | when the three conditions hold, the result is a permutation of the collected list with every item whose model name starts with `with_respect_to` before every other item, each group in collected order |
| `LatestProducts.PrioritizePermutation` | shop/oneapp/models.py:45 | the stable sort only moves items: same multiset |
| `LatestProducts.PrioritizeGrouped` | shop/oneapp/models.py:45 | after the sort no item with a false key precedes one with a true key |
| `LatestProducts.PrioritizeStable` | shop/oneapp/models.py:45 | after the sort each key group is in its original relative order |
| `LatestProducts.PrioritizeUnique` | shop/oneapp/models.py:45 | any grouped list that keeps both groups' order equals the reorder, so the reorder is exactly the stable descending sort on the key |
| `LatestProducts.Latest` | shop/oneapp/models.py:39 | one entry's `order_by('-id')[:5]`; its contract is `LatestSpec` |
| `LatestProducts.Collected` | shop/oneapp/models.py:36-40 | the list the loop builds from the matched entries; its contracts are `CollectedSpec` and `CollectedConcat` |
| `LatestProducts.Reorders` | shop/oneapp/models.py:41-44 | the three guards before the reorder; what follows from them is `NoReorderKeepsCollected` and `ReorderSpec` |
| `LatestProducts.Key` | shop/oneapp/models.py:45 | the sort key, a prefix test on the model name; its use is stated by `PrioritizeGrouped` and `PrioritizeStable` |
| `LatestProducts.Prioritize` | shop/oneapp/models.py:45 | the stable `sorted(..., reverse=True)` on the key; its contracts are `PrioritizePermutation`, `PrioritizeGrouped`, `PrioritizeStable` and `PrioritizeUnique` |
| `LatestProducts.MainPage` | shop/oneapp/models.py:34-47 | the whole result of `get_products_for_main_page`; its contracts are `ReorderSpec`, `NoReorderKeepsCollected`, `RegistryOrder`, `MainPageNamesOnly`, `UnknownNameIgnored` and `NoNamesNoProducts` |
| `LatestProducts.MatchingConcat` | shop/oneapp/models.py:37 | the lookup keeps registry order and multiplicity: splitting the registry splits the matched entries at the same point |
| `LatestProducts.CollectedConcat` | shop/oneapp/models.py:38-40 | the loop appends: the list built from two runs of entries is the first run's list followed by the second's |
| `LatestProducts.RegistryOrder` | shop/oneapp/models.py:37-40 | without a reorder, the products of entries listed earlier in the registry come before those of entries listed later, for every registry and every request |
| `LatestProducts.RegistryOrderWins` | shop/oneapp/models.py:37-40 | with notebooks registered before smartphones, requesting ("smartphones", "notebook") with no priority yields the latest notebooks, then the latest smartphones |
| `Categories.Columns` | shop/oneapp/models.py:69 | the annotated columns are exactly the aliases of the requested aggregates, and the column of each `Count(relation)` holds that relation's count for the category |
| `Categories.GetModelsForCount` | shop/oneapp/models.py:14-15 | one `Count` per name, in order; its contract for the sidebar's names is `SidebarColumns` |
| `Categories.Annotate` | shop/oneapp/models.py:69 | one row per category, in query order, with name, slug and the columns of `Columns`; used by `LeftSidebarSpec` |
| `Categories.AliasInjective` | shop/oneapp/models.py:69 | two aggregates with the same column name count the same relation, so no annotated column overwrites another |
| `Categories.GetCategoriesForLeftSidebar` | shop/oneapp/models.py:67-70 | the whole sidebar; its contract is `LeftSidebarSpec` |
| `Categories.EntryOf` | shop/oneapp/models.py:70 | a row yields an entry with its own name, slug and the count from the column the table names for it; otherwise a `KeyError` on the missing name or column |
| `Categories.SidebarEntries` | shop/oneapp/models.py:70 | success exactly when every row resolves, then one entry per row in row order; otherwise the `KeyError` of the first row that cannot be resolved |
| `Categories.SidebarColumns` | shop/oneapp/models.py:14-15 | `get_models_for_count('notebook', 'smartphones')` annotates exactly the columns `CATEGORY_NAME_COUNT_NAME` names, each holding its relation's count |
| `Categories.LeftSidebarSpec` | shop/oneapp/models.py:59-70 | the sidebar fails only on a category name the table lacks, with a `KeyError` on the first such name and no default count; otherwise it lists every category in order with its own product model's count |

## Left out

- The ORM itself is not modelled: querysets, `ContentType` resolution and the SQL of `annotate`/`Count`. The registry contents and the per-category count `tally(category, relation)` are inputs. The annotation's JOIN over both relations can inflate counts when a category has both notebooks and smartphones. That is ORM behaviour and is not modelled.
- PIL image decoding is not modelled. The decoded `(height, width)` is part of the `Image` value.
- `MAX_IMAGE_SIZE` is declared but never checked, so no byte-size bound is modelled.
- The commented-out thumbnail and JPEG recompression path and the commented-out `sd` property are not modelled. Neither is active code.
- `get_product_url` and `get_absolute_url` are not modelled. They only call the external URL router.
- `Cart`, `CartProduct` and `Customer` are not modelled. They are schema with no behaviour. Resolving a generic reference is also left out, because it is ORM work.
- The `__str__` methods, the `Decimal` price columns and the per-kind attribute columns are not modelled. They are display and storage details.
- `ProductImages.ProductTable.Save`: models a plain `save()` call whose foreign keys are valid. The caller supplies the primary key, and server-side key generation is not modelled. Slug uniqueness is not modelled, because the database enforces it. The options forwarded to `super().save` are not modelled: `update_fields` writes only the listed fields, `force_insert` on an existing key raises `IntegrityError`, and `force_update` on a missing key raises `DatabaseError`. A `categoryId` that names no category passes the resolution check and then fails the foreign key with `IntegrityError`; the model stores the row instead.
