/**
 What one run of the product-relation processor guarantees about the product's
 list items: the product-domain relations afterwards are exactly those the
 row asks for, other domains are untouched, exactly the stale items are
 deleted, no relation is kept twice, and a second run changes nothing more.
 */
module ProductReconcile {
  import opened Wrappers
  import opened ProductImport

  /** Some product-domain item of `items` has relation `r`. */
  ghost predicate HasRel(items: seq<ListItem>, r: Rel) {
    exists x :: x in items && Matches(x, r)
  }

  /**
   Position `i` of the original list is swept: a product-domain item that is not
   the first item with a relation the import asks for.
   */
  ghost predicate Stale(init: seq<ListItem>, seen: set<Rel>, i: int) {
    && 0 <= i < |init|
    && init[i].domain == Domain
    && !(RelOf(init[i]) in seen && FindItem(init, RelOf(init[i])) == Some(i))
  }

  /** Position `i` holds an item created by this run: first of its relation, which the original list lacks. */
  ghost predicate Created(init: seq<ListItem>, items: seq<ListItem>, seen: set<Rel>, i: int) {
    && 0 <= i < |items|
    && items[i].domain == Domain
    && RelOf(items[i]) in seen
    && FindItem(init, RelOf(items[i])).None?
    && FindItem(items, RelOf(items[i])) == Some(i)
  }

  /**
   The state after the relations `seen` have been applied to the original list
   `init`: original positions keep their profile, untouched ones their value,
   new items sit behind them, every seen relation has an item, and exactly the
   stale positions are pending deletion.
   */
  ghost predicate Inv(init: seq<ListItem>, st: State, seen: set<Rel>) {
    && |init| <= |st.items|
    && (forall i :: 0 <= i < |init| ==> SameProfile(init[i], st.items[i]))
    && (forall i :: 0 <= i < |init| && init[i].domain != Domain ==> st.items[i] == init[i])
    && (forall i :: Stale(init, seen, i) ==> st.items[i] == init[i])
    && (forall i :: |init| <= i < |st.items| ==> Created(init, st.items, seen, i))
    && (forall r :: r in seen ==> FindItem(st.items, r).Some?)
    && (forall i :: i in st.pending <==> Stale(init, seen, i))
  }

  /** Same length and profiles give the same lookups. */
  lemma FindSameProfiles(a: seq<ListItem>, b: seq<ListItem>)
    requires |a| == |b|
    requires forall j :: 0 <= j < |a| ==> SameProfile(a[j], b[j])
    ensures forall r :: FindItem(a, r) == FindItem(b, r)
  {
    forall r
      ensures FindItem(a, r) == FindItem(b, r)
    {
      FindKept(a, b, r);
      FindKept(b, a, r);
    }
  }

  /** Lookups in an extension of `init` that keeps its profiles agree with lookups in `init`. */
  lemma FindPrefix(init: seq<ListItem>, items: seq<ListItem>, r: Rel)
    requires |init| <= |items|
    requires forall j :: 0 <= j < |init| ==> SameProfile(init[j], items[j])
    ensures FindItem(init, r).Some? ==> FindItem(items, r) == FindItem(init, r)
    ensures FindItem(items, r).Some? && FindItem(items, r).value < |init| ==> FindItem(init, r) == FindItem(items, r)
  {
    FindKept(init, items, r);
    var o := FindItem(items, r);
    if o.Some? && o.value < |init| {
      assert Matches(init[o.value], r);
      FindFirst(init, r, o.value);
    }
  }

  lemma InitInv(init: seq<ListItem>)
    ensures Inv(init, State(init, ProductPositions(init), []), {})
  {
  }

  /** Applying relation `r` leaves stale exactly the previously stale positions other than the first original match of `r`. */
  lemma StaleAfter(init: seq<ListItem>, seen: set<Rel>, r: Rel)
    ensures forall i :: Stale(init, seen + {r}, i) <==> Stale(init, seen, i) && FindItem(init, r) != Some(i)
  {
  }

  /** Reusing the first item with relation `r` keeps the invariant. */
  lemma ReuseInv(init: seq<ListItem>, st: State, seen: set<Rel>, st': State, r: Rel, i: nat)
    requires Inv(init, st, seen)
    requires FindItem(st.items, r) == Some(i)
    requires |st'.items| == |st.items|
    requires forall j :: 0 <= j < |st.items| ==> SameProfile(st.items[j], st'.items[j])
    requires forall j :: 0 <= j < |st.items| && j != i ==> st'.items[j] == st.items[j]
    requires st'.pending == st.pending - {i}
    ensures Inv(init, st', seen + {r})
  {
    var seen' := seen + {r};
    FindPrefix(init, st.items, r);
    StaleAfter(init, seen, r);
    FindSameProfiles(st.items, st'.items);
    forall j | |init| <= j < |st'.items|
      ensures Created(init, st'.items, seen', j)
    {
      assert Created(init, st.items, seen, j);
    }
    if i < |init| {
      assert FindItem(init, r) == Some(i);
    } else {
      assert i !in st.pending;
    }
  }

  /** Appending a new item with relation `r`, which no item had, keeps the invariant. */
  lemma CreateInv(init: seq<ListItem>, st: State, seen: set<Rel>, st': State, r: Rel, x: ListItem)
    requires Inv(init, st, seen)
    requires FindItem(st.items, r).None?
    requires Matches(x, r)
    requires st'.items == st.items + [x]
    requires st'.pending == st.pending
    ensures Inv(init, st', seen + {r})
  {
    FindPrefix(init, st.items, r);
    StaleAfter(init, seen, r);
    assert forall j :: 0 <= j < |st.items| ==> st'.items[j] == st.items[j];
    CreateFinds(st.items, seen, x, r);
    CreateCreated(init, st.items, seen, x, r);
  }

  /** After appending an item with relation `r`, every relation found before and `r` itself are found. */
  lemma CreateFinds(items: seq<ListItem>, seen: set<Rel>, x: ListItem, r: Rel)
    requires forall r' :: r' in seen ==> FindItem(items, r').Some?
    requires Matches(x, r)
    ensures forall r' :: r' in seen + {r} ==> FindItem(items + [x], r').Some?
  {
    forall r' | r' in seen + {r}
      ensures FindItem(items + [x], r').Some?
    {
      FindAppend(items, x, r');
    }
  }

  /** Items behind the original ones stay created after appending an item with a relation no item had. */
  lemma CreateCreated(init: seq<ListItem>, items: seq<ListItem>, seen: set<Rel>, x: ListItem, r: Rel)
    requires |init| <= |items|
    requires forall i :: 0 <= i < |init| ==> SameProfile(init[i], items[i])
    requires forall i :: |init| <= i < |items| ==> Created(init, items, seen, i)
    requires FindItem(items, r).None? && Matches(x, r)
    ensures forall j :: |init| <= j < |items| + 1 ==> Created(init, items + [x], seen + {r}, j)
  {
    var items' := items + [x];
    FindPrefix(init, items, r);
    forall j | |init| <= j < |items'|
      ensures Created(init, items', seen + {r}, j)
    {
      FindAppend(items, x, RelOf(items'[j]));
      if j < |items| {
        assert items'[j] == items[j];
        assert Created(init, items, seen, j);
      }
    }
  }

  /** One code keeps the invariant, with its relation added to the seen ones. */
  lemma ApplyCodeInv(init: seq<ListItem>, st: State, seen: set<Rel>, chunk: Chunk, listType: string, code: string,
                     productCode: string, ids: map<string, int>)
    requires Inv(init, st, seen)
    ensures Inv(init, ApplyCode(st, chunk, listType, code, productCode, ids), seen + {Target(listType, code, ids)})
  {
    var r := Target(listType, code, ids);
    var st' := ApplyCode(st, chunk, listType, code, productCode, ids);
    match FindItem(st.items, r)
    case Some(i) =>
      ReuseInv(init, st, seen, st', r, i);
    case None =>
      CreateInv(init, st, seen, st', r, st'.items[|st.items|]);
  }

  /** The codes of one chunk keep the invariant, with all their relations added. */
  lemma {:induction false} ApplyCodesInv(init: seq<ListItem>, st: State, seen: set<Rel>, chunk: Chunk, listType: string,
                                         codes: seq<string>, productCode: string, ids: map<string, int>)
    requires Inv(init, st, seen)
    ensures Inv(init, ApplyCodes(st, chunk, listType, codes, productCode, ids), seen + CodeRels(listType, codes, ids))
    decreases |codes|
  {
    if |codes| == 0 {
      assert seen + CodeRels(listType, codes, ids) == seen;
    } else {
      var st1 := ApplyCode(st, chunk, listType, codes[0], productCode, ids);
      assert ApplyCodes(st, chunk, listType, codes, productCode, ids)
          == ApplyCodes(st1, chunk, listType, codes[1..], productCode, ids);
      ApplyCodeInv(init, st, seen, chunk, listType, codes[0], productCode, ids);
      var seen1 := seen + {Target(listType, codes[0], ids)};
      ApplyCodesInv(init, st1, seen1, chunk, listType, codes[1..], productCode, ids);
      CodeRelsCons(seen, listType, codes, ids);
    }
  }

  /** The relations of a list of codes are those of its first code and of the rest. */
  lemma CodeRelsCons(seen: set<Rel>, listType: string, codes: seq<string>, ids: map<string, int>)
    requires |codes| > 0
    ensures seen + {Target(listType, codes[0], ids)} + CodeRels(listType, codes[1..], ids)
         == seen + CodeRels(listType, codes, ids)
  {
    assert forall c :: c in codes <==> c == codes[0] || c in codes[1..];
  }

  /** One valid chunk keeps the invariant, with the relations it asks for added. */
  lemma ApplyChunkInv(init: seq<ListItem>, st: State, seen: set<Rel>, chunk: Chunk, settings: Settings,
                      productCode: string, ids: map<string, int>)
    requires Inv(init, st, seen)
    requires ApplyChunk(st, chunk, settings, productCode, ids).Success?
    ensures Inv(init, ApplyChunk(st, chunk, settings, productCode, ids).value, seen + ChunkRels(chunk, settings, ids))
  {
    if CodeKey in chunk {
      var codes := Pieces(chunk[CodeKey], settings.separator);
      ApplyCodesInv(init, st, seen, chunk, ListTypeOf(chunk), codes, productCode, ids);
    } else {
      assert seen + ChunkRels(chunk, settings, ids) == seen;
    }
  }

  /** A successful run over the chunks keeps the invariant, with every implied relation added. */
  lemma {:induction false} RunChunksInv(init: seq<ListItem>, st: State, seen: set<Rel>, chunks: seq<Chunk>,
                                        settings: Settings, productCode: string, ids: map<string, int>)
    requires Inv(init, st, seen)
    requires RunChunks(st, chunks, settings, productCode, ids).Success?
    ensures Inv(init, RunChunks(st, chunks, settings, productCode, ids).value, seen + Implied(chunks, settings, ids))
    decreases |chunks|
  {
    if |chunks| == 0 {
      assert seen + Implied(chunks, settings, ids) == seen;
    } else {
      var chunk := chunks[0];
      var st1 := ApplyChunk(st, chunk, settings, productCode, ids).value;
      var seen1 := seen + ChunkRels(chunk, settings, ids);
      ApplyChunkInv(init, st, seen, chunk, settings, productCode, ids);
      RunChunksInv(init, st1, seen1, chunks[1..], settings, productCode, ids);
      assert seen1 + Implied(chunks[1..], settings, ids) == seen + Implied(chunks, settings, ids);
    }
  }

  /**
   The sweep: after the invariant holds, keeping the non-pending items leaves
   exactly the seen product-domain relations and every other-domain item, and
   the pending items are exactly the stale originals.
   */
  lemma Sweep(init: seq<ListItem>, st: State, seen: set<Rel>)
    requires Inv(init, st, seen)
    ensures forall r :: HasRel(Select(st.items, st.pending, false), r) <==> r in seen
    ensures forall x :: x in init && x.domain != Domain ==> x in Select(st.items, st.pending, false)
    ensures forall x :: x in Select(st.items, st.pending, false) && x.domain != Domain ==> x in init
    ensures forall x :: x in Select(st.items, st.pending, true) <==> exists i :: Stale(init, seen, i) && init[i] == x
  {
    var kept := Select(st.items, st.pending, false);
    forall r
      ensures HasRel(kept, r) <==> r in seen
    {
      if HasRel(kept, r) {
        var x :| x in kept && Matches(x, r);
        var i :| 0 <= i < |st.items| && i !in st.pending && st.items[i] == x;
        if i < |init| {
          assert SameProfile(init[i], st.items[i]);
          assert !Stale(init, seen, i);
        } else {
          assert Created(init, st.items, seen, i);
        }
      }
      if r in seen {
        var k := FindItem(st.items, r).value;
        if k < |init| {
          FindPrefix(init, st.items, r);
          assert !Stale(init, seen, k);
        }
        assert k !in st.pending;
        assert st.items[k] in kept;
      }
    }
    forall x | x in init && x.domain != Domain
      ensures x in kept
    {
      var i :| 0 <= i < |init| && init[i] == x;
      assert !Stale(init, seen, i);
      assert st.items[i] == x;
    }
    forall x | x in kept && x.domain != Domain
      ensures x in init
    {
      var i :| 0 <= i < |st.items| && i !in st.pending && st.items[i] == x;
      assert i >= |init| ==> Created(init, st.items, seen, i);
      assert SameProfile(init[i], st.items[i]);
    }
  }

  /** Every original that is not stale is kept as the same stored item: same id, domain, type and reference. */
  lemma SweepKeeps(init: seq<ListItem>, st: State, seen: set<Rel>)
    requires Inv(init, st, seen)
    ensures forall i :: 0 <= i < |init| && !Stale(init, seen, i) ==>
              exists x :: x in Select(st.items, st.pending, false) && SameProfile(init[i], x)
  {
    forall i | 0 <= i < |init| && !Stale(init, seen, i)
      ensures exists x :: x in Select(st.items, st.pending, false) && SameProfile(init[i], x)
    {
      assert i !in st.pending;
      assert st.items[i] in Select(st.items, st.pending, false);
    }
  }

  /** Kept product-domain items have pairwise different relations. */
  lemma SweepDistinct(init: seq<ListItem>, st: State, seen: set<Rel>)
    requires Inv(init, st, seen)
    ensures forall i, j :: 0 <= i < j < |st.items| && i !in st.pending && j !in st.pending
                           && st.items[i].domain == Domain && st.items[j].domain == Domain
                           ==> RelOf(st.items[i]) != RelOf(st.items[j])
  {
    forall i, j | 0 <= i < j < |st.items| && i !in st.pending && j !in st.pending
                  && st.items[i].domain == Domain && st.items[j].domain == Domain
      ensures RelOf(st.items[i]) != RelOf(st.items[j])
    {
      var r := RelOf(st.items[i]);
      if j < |init| {
        assert SameProfile(init[i], st.items[i]) && SameProfile(init[j], st.items[j]);
        assert !Stale(init, seen, i) && !Stale(init, seen, j);
      } else if i < |init| {
        assert Created(init, st.items, seen, j);
        assert SameProfile(init[i], st.items[i]);
        assert Matches(init[i], r);
      } else {
        assert Created(init, st.items, seen, i) && Created(init, st.items, seen, j);
      }
    }
  }

  /** The product-domain items of a list have pairwise different relations. */
  ghost predicate Distinct(items: seq<ListItem>) {
    forall i, j :: 0 <= i < j < |items| && items[i].domain == Domain && items[j].domain == Domain
                   ==> RelOf(items[i]) != RelOf(items[j])
  }

  /** Selecting positions keeps relations distinct when the selected positions have distinct relations. */
  lemma SelectDistinct(items: seq<ListItem>, pending: set<int>)
    requires forall i, j :: 0 <= i < j < |items| && i !in pending && j !in pending
                            && items[i].domain == Domain && items[j].domain == Domain
                            ==> RelOf(items[i]) != RelOf(items[j])
    ensures Distinct(Select(items, pending, false))
  {
    var r := Select(items, pending, false);
    var idx := Chosen(|items|, pending, false);
    forall i, j | 0 <= i < j < |r| && r[i].domain == Domain && r[j].domain == Domain
      ensures RelOf(r[i]) != RelOf(r[j])
    {
      assert r[i] == items[idx[i]] && r[j] == items[idx[j]] && idx[i] < idx[j];
    }
  }

  /** In a list with distinct relations every product-domain item is the first with its relation. */
  lemma DistinctFirst(items: seq<ListItem>, i: int)
    requires Distinct(items)
    requires 0 <= i < |items| && items[i].domain == Domain
    ensures FindItem(items, RelOf(items[i])) == Some(i)
  {
    FindFirst(items, RelOf(items[i]), i);
  }

  /** The state a successful run ends in, with the invariant it satisfies. */
  lemma RunInv(product: Product, chunks: seq<Chunk>, settings: Settings, ids: map<string, int>)
    requires RunChunks(State(product.listItems, ProductPositions(product.listItems), []), chunks, settings,
                       product.code, ids).Success?
    ensures Inv(product.listItems,
                RunChunks(State(product.listItems, ProductPositions(product.listItems), []), chunks, settings,
                          product.code, ids).value,
                Implied(chunks, settings, ids))
  {
    var init := product.listItems;
    InitInv(init);
    RunChunksInv(init, State(init, ProductPositions(init), []), {}, chunks, settings, product.code, ids);
    assert {} + Implied(chunks, settings, ids) == Implied(chunks, settings, ids);
  }

  /**
   Reconciliation: afterwards the product-domain relations of the product are
   exactly those the valid chunks ask for; items of other domains are kept
   as they were; and the deleted items are exactly the stale originals.
   */
  lemma ProcessReconciles(product: Product, row: Row, chunks: seq<Chunk>, settings: Settings,
                          ids: map<string, int>, next: (Product, Row) -> Row)
    requires Process(product, row, chunks, settings, ids, next).Success?
    ensures var out := Process(product, row, chunks, settings, ids, next).value;
            var implied := Implied(chunks, settings, ids);
            && (forall r :: HasRel(out.product.listItems, r) <==> r in implied)
            && (forall x :: x in product.listItems && x.domain != Domain ==> x in out.product.listItems)
            && (forall x :: x in out.product.listItems && x.domain != Domain ==> x in product.listItems)
            && (forall x :: x in out.deleted <==> exists i :: Stale(product.listItems, implied, i) && product.listItems[i] == x)
            && (forall i :: 0 <= i < |product.listItems| && !Stale(product.listItems, implied, i) ==>
                  exists x :: x in out.product.listItems && SameProfile(product.listItems[i], x))
            && Distinct(out.product.listItems)
  {
    var init := product.listItems;
    var st := RunChunks(State(init, ProductPositions(init), []), chunks, settings, product.code, ids).value;
    RunInv(product, chunks, settings, ids);
    Sweep(init, st, Implied(chunks, settings, ids));
    SweepKeeps(init, st, Implied(chunks, settings, ids));
    SweepDistinct(init, st, Implied(chunks, settings, ids));
    SelectDistinct(st.items, st.pending);
  }

  /** The warnings name the product and each unknown code of the valid chunks, in order. */
  lemma ProcessWarnings(product: Product, row: Row, chunks: seq<Chunk>, settings: Settings,
                        ids: map<string, int>, next: (Product, Row) -> Row)
    requires Process(product, row, chunks, settings, ids, next).Success?
    ensures Process(product, row, chunks, settings, ids, next).value.warnings
         == ExpectedWarnings(chunks, settings, product.code, ids)
  {
    RunChunksWarnings(State(product.listItems, ProductPositions(product.listItems), []), chunks, settings,
                      product.code, ids);
  }

  /** Chunks without a product code ask for nothing. */
  lemma {:induction false} NothingImplied(chunks: seq<Chunk>, settings: Settings, ids: map<string, int>)
    requires forall k :: 0 <= k < |chunks| ==> CodeKey !in chunks[k]
    ensures Implied(chunks, settings, ids) == {}
    decreases |chunks|
  {
    if |chunks| > 0 {
      NothingImplied(chunks[1..], settings, ids);
    }
  }

  /** Full replacement: with no valid chunk every original product-domain item is deleted and none is left. */
  lemma ProcessWithoutCodesDeletesAll(product: Product, row: Row, chunks: seq<Chunk>, settings: Settings,
                                      ids: map<string, int>, next: (Product, Row) -> Row)
    requires forall k :: 0 <= k < |chunks| ==> CodeKey !in chunks[k]
    ensures Process(product, row, chunks, settings, ids, next).Success?
    ensures var out := Process(product, row, chunks, settings, ids, next).value;
            && (forall x :: x in product.listItems && x.domain == Domain ==> x in out.deleted)
            && (forall x :: x in out.product.listItems ==> x.domain != Domain)
  {
    NothingImplied(chunks, settings, ids);
    ProcessReconciles(product, row, chunks, settings, ids, next);
    var out := Process(product, row, chunks, settings, ids, next).value;
    forall x | x in product.listItems && x.domain == Domain
      ensures x in out.deleted
    {
      var i :| 0 <= i < |product.listItems| && product.listItems[i] == x;
      assert Stale(product.listItems, {}, i);
    }
    forall x | x in out.product.listItems
      ensures x.domain != Domain
    {
      if x.domain == Domain {
        assert HasRel(out.product.listItems, RelOf(x));
      }
    }
  }

  /** A list whose product-domain relations are exactly `implied`, each once, has nothing stale. */
  lemma NothingStale(items: seq<ListItem>, implied: set<Rel>)
    requires forall r :: HasRel(items, r) <==> r in implied
    requires Distinct(items)
    ensures forall i :: !Stale(items, implied, i)
  {
    forall i | 0 <= i < |items| && items[i].domain == Domain
      ensures !Stale(items, implied, i)
    {
      assert HasRel(items, RelOf(items[i])) by {
        assert items[i] in items && Matches(items[i], RelOf(items[i]));
      }
      DistinctFirst(items, i);
    }
  }

  /**
   `saved` is the list `once` after saving: the same items in the same order,
   stored ids kept, and every product-domain item carrying an id of its own.
   */
  ghost predicate Saved(once: seq<ListItem>, saved: seq<ListItem>) {
    && |saved| == |once|
    && (forall i :: 0 <= i < |once| ==> saved[i] == once[i].(id := saved[i].id))
    && (forall i :: 0 <= i < |once| && once[i].id.Some? ==> saved[i].id == once[i].id)
    && (forall i :: 0 <= i < |saved| && saved[i].domain == Domain ==> saved[i].id.Some?)
    && (forall i, j :: 0 <= i < j < |saved| && saved[i].domain == Domain && saved[j].domain == Domain
                       ==> saved[i].id != saved[j].id)
  }

  /** Saving assigns ids only, so it keeps the relations and their distinctness. */
  lemma SavedRels(once: seq<ListItem>, saved: seq<ListItem>)
    requires Saved(once, saved)
    ensures forall r :: HasRel(saved, r) <==> HasRel(once, r)
    ensures Distinct(once) ==> Distinct(saved)
  {
    forall r
      ensures HasRel(saved, r) <==> HasRel(once, r)
    {
      if HasRel(saved, r) {
        var x :| x in saved && Matches(x, r);
        var i :| 0 <= i < |saved| && saved[i] == x;
        assert once[i] in once && Matches(once[i], r);
      }
      if HasRel(once, r) {
        var x :| x in once && Matches(x, r);
        var i :| 0 <= i < |once| && once[i] == x;
        assert saved[i] in saved && Matches(saved[i], r);
      }
    }
    if Distinct(once) {
      forall i, j | 0 <= i < j < |saved| && saved[i].domain == Domain && saved[j].domain == Domain
        ensures RelOf(saved[i]) != RelOf(saved[j])
      {
        assert RelOf(once[i]) != RelOf(once[j]);
      }
    }
  }

  /**
   Idempotence: importing the same row again into the saved product deletes
   nothing and keeps the same relations.
   */
  lemma ProcessTwice(product: Product, row: Row, chunks: seq<Chunk>, settings: Settings,
                     ids: map<string, int>, next: (Product, Row) -> Row, saved: seq<ListItem>)
    requires Process(product, row, chunks, settings, ids, next).Success?
    requires Saved(Process(product, row, chunks, settings, ids, next).value.product.listItems, saved)
    ensures var once := Process(product, row, chunks, settings, ids, next).value;
            var twice := Process(Product(once.product.code, saved), row, chunks, settings, ids, next);
            && twice.Success?
            && (forall x :: x !in twice.value.deleted)
            && forall r :: HasRel(twice.value.product.listItems, r) <==> HasRel(once.product.listItems, r)
  {
    var once := Process(product, row, chunks, settings, ids, next).value;
    var implied := Implied(chunks, settings, ids);
    ProcessReconciles(product, row, chunks, settings, ids, next);
    SavedRels(once.product.listItems, saved);
    NothingStale(saved, implied);
    ProcessReconciles(Product(once.product.code, saved), row, chunks, settings, ids, next);
  }

  /** The code field "A\nB" holds the two codes "A" and "B". */
  lemma PiecesOfTwoLines()
    ensures Pieces("A\nB", "\n") == ["A", "B"]
  {
    Text.SplitTwoLines();
    Text.TrimUnchanged("A");
    Text.TrimUnchanged("B");
    var ps := Pieces("A\nB", "\n");
    assert |ps| == 2 && ps[0] == "A" && ps[1] == "B";
  }

  /** Code "A" on an empty list creates its item. */
  lemma FirstCodeOnEmptyList(chunk: Chunk)
    ensures ApplyCode(State([], {}, []), chunk, DefaultType, "A", "P1", map["A" := 1, "B" := 2])
         == State([ListItem(None, Domain, DefaultType, Some(1), chunk)], {}, [])
  {
    var ids := map["A" := 1, "B" := 2];
    assert FindItem([], Target(DefaultType, "A", ids)).None?;
  }

  /** Code "B" next to the item of "A" creates a second item. */
  lemma SecondCodeCreates(chunk: Chunk)
    ensures ApplyCode(State([ListItem(None, Domain, DefaultType, Some(1), chunk)], {}, []), chunk, DefaultType, "B",
                      "P1", map["A" := 1, "B" := 2])
         == State([ListItem(None, Domain, DefaultType, Some(1), chunk),
                   ListItem(None, Domain, DefaultType, Some(2), chunk)], {}, [])
  {
    var ids := map["A" := 1, "B" := 2];
    var a := ListItem(None, Domain, DefaultType, Some(1), chunk);
    assert !Matches(a, Target(DefaultType, "B", ids));
    assert FindItem([a], Target(DefaultType, "B", ids)).None?;
  }

  /** Two resolvable codes on an empty list create one item each. */
  lemma TwoCodesOnEmptyList(chunk: Chunk)
    ensures ApplyCodes(State([], {}, []), chunk, DefaultType, ["A", "B"], "P1", map["A" := 1, "B" := 2])
         == State([ListItem(None, Domain, DefaultType, Some(1), chunk),
                   ListItem(None, Domain, DefaultType, Some(2), chunk)], {}, [])
  {
    var ids := map["A" := 1, "B" := 2];
    var a := ListItem(None, Domain, DefaultType, Some(1), chunk);
    var b := ListItem(None, Domain, DefaultType, Some(2), chunk);
    var st0, st1, st2 := State([], {}, []), State([a], {}, []), State([a, b], {}, []);
    assert ApplyCodes(st0, chunk, DefaultType, ["A", "B"], "P1", ids)
        == ApplyCodes(st1, chunk, DefaultType, ["B"], "P1", ids) by {
      FirstCodeOnEmptyList(chunk);
      assert ["A", "B"][1..] == ["B"];
    }
    assert ApplyCodes(st1, chunk, DefaultType, ["B"], "P1", ids)
        == ApplyCodes(st2, chunk, DefaultType, [], "P1", ids) by {
      SecondCodeCreates(chunk);
      assert ["B"][1..] == [];
    }
  }

  /** The single chunk with code field "A\nB" runs to the two new items. */
  lemma TwoCodesRun()
    ensures var chunk := map[CodeKey := "A\nB"];
            (RunChunks(State([], {}, []), [chunk], Settings({"default", "suggestion"}, "\n"), "P1",
                       map["A" := 1, "B" := 2])
             == Success(State([ListItem(None, Domain, DefaultType, Some(1), chunk),
                               ListItem(None, Domain, DefaultType, Some(2), chunk)], {}, [])))
  {
    var chunk := map[CodeKey := "A\nB"];
    var settings := Settings({"default", "suggestion"}, "\n");
    var ids := map["A" := 1, "B" := 2];
    var st0 := State([], {}, []);
    var st2 := State([ListItem(None, Domain, DefaultType, Some(1), chunk),
                      ListItem(None, Domain, DefaultType, Some(2), chunk)], {}, []);
    assert ApplyChunk(st0, chunk, settings, "P1", ids) == Success(st2) by {
      PiecesOfTwoLines();
      TwoCodesOnEmptyList(chunk);
    }
    assert [chunk][1..] == [];
    assert RunChunks(st2, [], settings, "P1", ids) == Success(st2);
  }

  /** "A\nB" in the code field of one chunk yields two new items, one per code, when both codes resolve. */
  lemma TwoCodesTwoItems(next: (Product, Row) -> Row)
    ensures var chunk := map[CodeKey := "A\nB"];
            var out := Process(Product("P1", []), map[], [chunk], Configure(Unset, [], None),
                               map["A" := 1, "B" := 2], next);
            && out.Success?
            && out.value.product.listItems == [ListItem(None, Domain, DefaultType, Some(1), chunk),
                                               ListItem(None, Domain, DefaultType, Some(2), chunk)]
            && out.value.deleted == []
            && out.value.warnings == []
  {
    var chunk := map[CodeKey := "A\nB"];
    var settings := Settings({"default", "suggestion"}, "\n");
    var ids := map["A" := 1, "B" := 2];
    var a := ListItem(None, Domain, DefaultType, Some(1), chunk);
    var b := ListItem(None, Domain, DefaultType, Some(2), chunk);
    TwoCodesRun();
    assert Select([a, b], {}, false) == [a, b] && Select([a, b], {}, true) == [] by {
      assert [a, b][..1] == [a];
    }
    assert ProductPositions([]) == {};
    assert Configure(Unset, [], None) == settings;
    var out := Process(Product("P1", []), map[], [chunk], settings, ids, next);
    assert out == Success(Outcome(Product("P1", [a, b]), [], [], next(Product("P1", [a, b]), map[])));
  }
}
