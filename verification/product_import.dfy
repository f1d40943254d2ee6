/**
 The product-relation processor of the CSV product import. It reconciles the
 product-to-product list items of one product with the relation chunks mapped
 from one CSV row: matching items are updated, missing ones are created, and
 every pre-existing product-domain item that no chunk confirms is deleted.
 */
module ProductImport {
  import opened Wrappers
  import Text

  /** One relation block of a row, keyed by field name (`product.code`, `product.lists.type`, ...). */
  type Chunk = map<string, string>

  /** A CSV row: column position to raw value. */
  type Row = map<int, string>

  /** The configured code separator; PHP's `explode` refuses an empty one. */
  type Separator = s: string | |s| > 0 witness "\n"

  const Domain: string := "product"
  const CodeKey: string := "product.code"
  const TypeKey: string := "product.lists.type"
  const DefaultType: string := "default"
  const DefaultSeparator: Separator := "\n"
  const DefaultListTypes: seq<string> := ["default", "suggestion"]

  /** The page size of the list-type search (`slice(0, 0x7fffffff)`). */
  const SearchLimit: nat := 0x7fffffff

  /* ---------------------------------------------------------------- */
  /* Allowed list types (the constructor)                              */
  /* ---------------------------------------------------------------- */

  /** The configuration value for the managed list types: absent, explicitly `null`, or a list of codes. */
  datatype ListTypeSetting = Unset | Null | Codes(codes: seq<string>)

  /** A stored list type. */
  datatype ListTypeItem = ListTypeItem(domain: string, code: string)

  /** The stored list types of domain `product`, in store order. */
  function ProductListTypes(store: seq<ListTypeItem>): (found: seq<ListTypeItem>)
    ensures |found| <= |store|
    ensures forall t :: t in found <==> t in store && t.domain == Domain
    decreases |store|
  {
    if |store| == 0 then []
    else (if store[0].domain == Domain then [store[0]] else []) + ProductListTypes(store[1..])
  }

  /** The set of list types the processor accepts in incoming chunks. */
  function AllowedTypes(setting: ListTypeSetting, store: seq<ListTypeItem>): (allowed: set<string>)
    ensures setting.Unset? ==> allowed == {"default", "suggestion"}
    ensures setting.Codes? ==> forall c :: c in allowed <==> c in setting.codes
    ensures setting.Null? ==>
              forall c :: c in allowed ==> exists t :: t in store && t.domain == Domain && t.code == c
    ensures setting.Null? && |ProductListTypes(store)| <= SearchLimit ==>
              forall t :: t in store && t.domain == Domain ==> t.code in allowed
  {
    match setting
    case Unset => set c | c in DefaultListTypes
    case Codes(cs) => set c | c in cs
    case Null =>
      var found := ProductListTypes(store);
      var page := if |found| <= SearchLimit then found else found[..SearchLimit];
      set t | t in page :: t.code
  }

  /** The processor's configuration. */
  datatype Settings = Settings(allowed: set<string>, separator: Separator)

  /** Builds the configuration from the list-type and separator settings; a missing separator setting means a newline. */
  function Configure(listTypes: ListTypeSetting, store: seq<ListTypeItem>, separator: Option<Separator>): (s: Settings)
  {
    Settings(AllowedTypes(listTypes, store), separator.GetOr(DefaultSeparator))
  }

  /* ---------------------------------------------------------------- */
  /* Chunk validation                                                  */
  /* ---------------------------------------------------------------- */

  /** PHP truthiness of a string: everything except "" and "0". */
  predicate Truthy(s: string) {
    s != "" && s != "0"
  }

  /** The field lookup with a default. */
  function Val(chunk: Chunk, key: string, default: string): string {
    if key in chunk then chunk[key] else default
  }

  /** The list type a chunk asks for, `default` when it names none. */
  function ListTypeOf(chunk: Chunk): string {
    Val(chunk, TypeKey, DefaultType)
  }

  datatype ImportError = InvalidType(listType: string)

  /** A chunk that names a product code and a type outside the allowed set. */
  predicate Rejects(chunk: Chunk, allowed: set<string>) {
    CodeKey in chunk && TypeKey in chunk && Truthy(chunk[TypeKey]) && chunk[TypeKey] !in allowed
  }

  /** `checkEntry`: false to skip the chunk, true to import it, or the error for a disallowed type. */
  function CheckEntry(chunk: Chunk, allowed: set<string>): (r: Result<bool, ImportError>)
    ensures r == Success(false) <==> CodeKey !in chunk
    ensures r.Failure? <==> Rejects(chunk, allowed)
    ensures r.Failure? ==> r.error == InvalidType(chunk[TypeKey]) && chunk[TypeKey] != ""
    ensures r == Success(true) ==>
              CodeKey in chunk && (ListTypeOf(chunk) in allowed || ListTypeOf(chunk) in {DefaultType, "", "0"})
  {
    if CodeKey !in chunk then Success(false)
    else if TypeKey in chunk && Truthy(chunk[TypeKey]) && chunk[TypeKey] !in allowed then
      Failure(InvalidType(chunk[TypeKey]))
    else Success(true)
  }

  /* ---------------------------------------------------------------- */
  /* List items                                                        */
  /* ---------------------------------------------------------------- */

  /** The identity a list item is looked up by: its type and referenced product id. */
  datatype Rel = Rel(listType: string, refId: Option<int>)

  /** A list item of the product: stored ones have an id, new ones do not yet. */
  datatype ListItem = ListItem(id: Option<int>, domain: string, listType: string, refId: Option<int>, fields: map<string, string>)

  datatype Product = Product(code: string, listItems: seq<ListItem>)

  /** The warning logged for a code that names no product. */
  datatype Warning = UnknownCode(code: string, productCode: string)

  function RelOf(x: ListItem): Rel {
    Rel(x.listType, x.refId)
  }

  /** `x` is a product-domain item with relation `r`. */
  predicate Matches(x: ListItem, r: Rel) {
    x.domain == Domain && RelOf(x) == r
  }

  /** `getListItem('product', type, refid)`: the position of the first matching item. */
  function FindItem(items: seq<ListItem>, r: Rel): (o: Option<nat>)
    ensures o.Some? ==> o.value < |items| && Matches(items[o.value], r)
    ensures o.Some? ==> forall j :: 0 <= j < o.value ==> !Matches(items[j], r)
    ensures o.None? ==> forall j :: 0 <= j < |items| ==> !Matches(items[j], r)
    decreases |items|
  {
    if |items| == 0 then None
    else if Matches(items[0], r) then Some(0)
    else match FindItem(items[1..], r)
      case None => None
      case Some(k) => Some(k + 1)
  }

  /** The product id a code resolves to, if any (the code cache lookup). */
  function Resolve(ids: map<string, int>, code: string): Option<int> {
    if code in ids then Some(ids[code]) else None
  }

  /** The working state: the product's list items, the positions still pending deletion, the log. */
  datatype State = State(items: seq<ListItem>, pending: set<int>, warnings: seq<Warning>)

  /** Two items are the same stored item: they agree on id, domain and relation (their fields may differ). */
  predicate SameProfile(a: ListItem, b: ListItem) {
    a.id == b.id && a.domain == b.domain && RelOf(a) == RelOf(b)
  }

  /** The relation a code of a chunk with list type `listType` asks for. */
  function Target(listType: string, code: string, ids: map<string, int>): Rel {
    Rel(listType, Resolve(ids, code))
  }

  /** One code of a chunk: reuse the matching item or create one, overlay the chunk, set the reference. */
  function ApplyCode(st: State, chunk: Chunk, listType: string, code: string, productCode: string,
                     ids: map<string, int>): (st': State)
    ensures FindItem(st'.items, Target(listType, code, ids)).Some?
    ensures |st.items| <= |st'.items| <= |st.items| + 1
    ensures forall j :: 0 <= j < |st.items| ==> SameProfile(st.items[j], st'.items[j])
    ensures FindItem(st.items, Target(listType, code, ids)).Some? ==>
              var i := FindItem(st.items, Target(listType, code, ids)).value;
              && |st'.items| == |st.items|
              && st'.pending == st.pending - {i}
              && st'.items[i] == st.items[i].(fields := st.items[i].fields + chunk)
              && (forall j :: 0 <= j < |st.items| && j != i ==> st'.items[j] == st.items[j])
    ensures FindItem(st.items, Target(listType, code, ids)).None? ==>
              && st'.items == st.items + [ListItem(None, Domain, listType, Resolve(ids, code), chunk)]
              && st'.pending == st.pending
    ensures code !in ids ==> st'.warnings == st.warnings + [UnknownCode(code, productCode)]
    ensures code in ids ==> st'.warnings == st.warnings
  {
    var refId := Resolve(ids, code);
    var warnings := if refId.None? then st.warnings + [UnknownCode(code, productCode)] else st.warnings;
    match FindItem(st.items, Rel(listType, refId))
    case Some(i) =>
      var items := Overlay(st.items, i, chunk, refId);
      FindKept(st.items, items, Rel(listType, refId));
      State(items, st.pending - {i}, warnings)
    case None =>
      var x := ListItem(None, Domain, listType, refId, map[]);
      var x' := x.(fields := x.fields + chunk, refId := refId);
      assert x'.fields == chunk;
      FindAppend(st.items, x', Rel(listType, refId));
      State(st.items + [x'], st.pending, warnings)
  }

  /** The item at `i` with the chunk laid over its fields and its reference set to `refId`. */
  function Overlay(items: seq<ListItem>, i: nat, chunk: Chunk, refId: Option<int>): (items': seq<ListItem>)
    requires i < |items| && items[i].refId == refId
    ensures |items'| == |items|
    ensures items'[i] == items[i].(fields := items[i].fields + chunk)
    ensures forall j :: 0 <= j < |items| ==> SameProfile(items[j], items'[j])
    ensures forall j :: 0 <= j < |items| && j != i ==> items'[j] == items[j]
  {
    var x := items[i];
    items[i := x.(fields := x.fields + chunk, refId := refId)]
  }

  /** The first match is unique: a matching position with no match before it is what `FindItem` returns. */
  lemma FindFirst(items: seq<ListItem>, r: Rel, i: nat)
    requires i < |items| && Matches(items[i], r)
    requires forall j :: 0 <= j < i ==> !Matches(items[j], r)
    ensures FindItem(items, r) == Some(i)
  {
  }

  /** Appending an item leaves an earlier match in place, or makes the new item the match. */
  lemma FindAppend(a: seq<ListItem>, x: ListItem, r: Rel)
    ensures FindItem(a, r).Some? ==> FindItem(a + [x], r) == FindItem(a, r)
    ensures FindItem(a, r).None? && Matches(x, r) ==> FindItem(a + [x], r) == Some(|a|)
    ensures FindItem(a, r).None? && !Matches(x, r) ==> FindItem(a + [x], r).None?
  {
    var b := a + [x];
    assert forall j :: 0 <= j < |a| ==> b[j] == a[j];
    if FindItem(a, r).Some? {
      FindFirst(b, r, FindItem(a, r).value);
    } else if Matches(x, r) {
      FindFirst(b, r, |a|);
    }
  }

  /** The relation each code asks for. */
  function CodeRels(listType: string, codes: seq<string>, ids: map<string, int>): set<Rel> {
    set c | c in codes :: Target(listType, c, ids)
  }

  /** The warnings the unknown codes among `codes` produce, in order. */
  function UnknownCodes(codes: seq<string>, productCode: string, ids: map<string, int>): (ws: seq<Warning>)
    ensures forall w :: w in ws ==> w.productCode == productCode && w.code in codes && w.code !in ids
    ensures |ws| <= |codes|
    decreases |codes|
  {
    if |codes| == 0 then []
    else (if codes[0] in ids then [] else [UnknownCode(codes[0], productCode)])
         + UnknownCodes(codes[1..], productCode, ids)
  }

  /** All codes of one chunk, in order. */
  function ApplyCodes(st: State, chunk: Chunk, listType: string, codes: seq<string>, productCode: string,
                      ids: map<string, int>): (st': State)
    ensures |st.items| <= |st'.items| <= |st.items| + |codes|
    ensures forall j :: 0 <= j < |st.items| ==> SameProfile(st.items[j], st'.items[j])
    ensures forall c :: c in codes ==> FindItem(st'.items, Target(listType, c, ids)).Some?
    ensures st'.pending <= st.pending
    decreases |codes|
  {
    if |codes| == 0 then st
    else
      var st1 := ApplyCode(st, chunk, listType, codes[0], productCode, ids);
      var st' := ApplyCodes(st1, chunk, listType, codes[1..], productCode, ids);
      ApplyCodesStep(st, st1, st', Target(listType, codes[0], ids));
      assert forall c :: c in codes ==> c == codes[0] || c in codes[1..];
      st'
  }

  /** The codes of a chunk log one warning per unknown code, in order. */
  lemma {:induction false} ApplyCodesWarnings(st: State, chunk: Chunk, listType: string, codes: seq<string>,
                                               productCode: string, ids: map<string, int>)
    ensures ApplyCodes(st, chunk, listType, codes, productCode, ids).warnings
         == st.warnings + UnknownCodes(codes, productCode, ids)
    decreases |codes|
  {
    if |codes| > 0 {
      var st1 := ApplyCode(st, chunk, listType, codes[0], productCode, ids);
      var st' := ApplyCodes(st1, chunk, listType, codes[1..], productCode, ids);
      assert ApplyCodes(st, chunk, listType, codes, productCode, ids) == st';
      var w0: seq<Warning> := if codes[0] in ids then [] else [UnknownCode(codes[0], productCode)];
      var w1 := UnknownCodes(codes[1..], productCode, ids);
      ApplyCodesWarnings(st1, chunk, listType, codes[1..], productCode, ids);
      assert st1.warnings == st.warnings + w0;
      assert UnknownCodes(codes, productCode, ids) == w0 + w1;
      AppendAssoc(st.warnings, w0, w1);
    }
  }

  lemma AppendAssoc(a: seq<Warning>, b: seq<Warning>, c: seq<Warning>)
    ensures (a + b) + c == a + (b + c)
  {
  }

  /** Profiles are kept from `a` through `b` to `c`, and so is a match found in `b`. */
  lemma ApplyCodesStep(a: State, b: State, c: State, r: Rel)
    requires |a.items| <= |b.items| <= |c.items|
    requires forall j :: 0 <= j < |a.items| ==> SameProfile(a.items[j], b.items[j])
    requires forall j :: 0 <= j < |b.items| ==> SameProfile(b.items[j], c.items[j])
    requires FindItem(b.items, r).Some?
    ensures forall j :: 0 <= j < |a.items| ==> SameProfile(a.items[j], c.items[j])
    ensures FindItem(c.items, r).Some?
  {
    FindKept(b.items, c.items, r);
  }

  /** A match found in `a` is found at the same place in any extension of `a` that keeps its profiles. */
  lemma FindKept(a: seq<ListItem>, b: seq<ListItem>, r: Rel)
    requires |a| <= |b|
    requires forall j :: 0 <= j < |a| ==> SameProfile(a[j], b[j])
    ensures FindItem(a, r).Some? ==> FindItem(b, r) == FindItem(a, r)
  {
    if FindItem(a, r).Some? {
      var i := FindItem(a, r).value;
      assert Matches(b[i], r) by {
        assert Matches(a[i], r) && SameProfile(a[i], b[i]);
      }
      forall j | 0 <= j < i
        ensures !Matches(b[j], r)
      {
        assert !Matches(a[j], r) && SameProfile(a[j], b[j]);
      }
      FindFirst(b, r, i);
    }
  }

  /** The trimmed codes of a chunk's `product.code` field. */
  function Pieces(codes: string, separator: Separator): (ps: seq<string>)
    ensures |ps| == |Text.Split(codes, separator)|
    ensures forall i :: 0 <= i < |ps| ==> ps[i] == Text.Trim(Text.Split(codes, separator)[i])
  {
    var parts := Text.Split(codes, separator);
    seq(|parts|, i requires 0 <= i < |parts| => Text.Trim(parts[i]))
  }

  /** Each code of a chunk is free of the separator and neither starts nor ends with a blank character. */
  lemma PiecesClean(codes: string, separator: Separator)
    ensures forall i :: 0 <= i < |Pieces(codes, separator)| ==>
              var c := Pieces(codes, separator)[i];
              (&& !Text.Contains(c, separator)
               && (|c| > 0 ==> !Text.IsBlank(c[0]) && !Text.IsBlank(c[|c| - 1])))
  {
    var parts := Text.Split(codes, separator);
    var ps := Pieces(codes, separator);
    Text.SplitPiecesFree(codes, separator);
    forall i | 0 <= i < |ps|
      ensures !Text.Contains(ps[i], separator)
    {
      var a :| Text.Trims(parts[i], ps[i], a);
      Text.SliceFree(parts[i], separator, a, a + |ps[i]|);
    }
  }

  /** One chunk: validate, then apply each of its codes. */
  function ApplyChunk(st: State, chunk: Chunk, settings: Settings, productCode: string,
                      ids: map<string, int>): (r: Result<State, ImportError>)
    ensures r.Failure? <==> Rejects(chunk, settings.allowed)
    ensures r.Failure? ==> r.error == InvalidType(chunk[TypeKey])
    ensures CodeKey !in chunk ==> r == Success(st)
    ensures r.Success? && CodeKey in chunk ==>
              r.value == ApplyCodes(st, chunk, ListTypeOf(chunk), Pieces(chunk[CodeKey], settings.separator),
                                    productCode, ids)
  {
    match CheckEntry(chunk, settings.allowed)
    case Failure(e) => Failure(e)
    case Success(valid) =>
      if !valid then Success(st)
      else
        var codes := Pieces(Val(chunk, CodeKey, ""), settings.separator);
        Success(ApplyCodes(st, chunk, ListTypeOf(chunk), codes, productCode, ids))
  }

  /** The relations a chunk asks for (none when it is skipped). */
  function ChunkRels(chunk: Chunk, settings: Settings, ids: map<string, int>): set<Rel> {
    if CodeKey in chunk then CodeRels(ListTypeOf(chunk), Pieces(chunk[CodeKey], settings.separator), ids)
    else {}
  }

  /** The relations all chunks of a row ask for. */
  function Implied(chunks: seq<Chunk>, settings: Settings, ids: map<string, int>): (rels: set<Rel>)
    ensures forall k :: 0 <= k < |chunks| ==> ChunkRels(chunks[k], settings, ids) <= rels
    decreases |chunks|
  {
    if |chunks| == 0 then {}
    else ChunkRels(chunks[0], settings, ids) + Implied(chunks[1..], settings, ids)
  }

  /** The warnings all chunks of a row produce, in order. */
  function ExpectedWarnings(chunks: seq<Chunk>, settings: Settings, productCode: string,
                            ids: map<string, int>): (ws: seq<Warning>)
    ensures forall w :: w in ws ==> w.productCode == productCode && w.code !in ids
    decreases |chunks|
  {
    if |chunks| == 0 then []
    else
      (if CodeKey in chunks[0]
       then UnknownCodes(Pieces(chunks[0][CodeKey], settings.separator), productCode, ids)
       else [])
      + ExpectedWarnings(chunks[1..], settings, productCode, ids)
  }

  /** The chunks of a row, in order; the first disallowed type aborts. */
  function RunChunks(st: State, chunks: seq<Chunk>, settings: Settings, productCode: string,
                     ids: map<string, int>): (r: Result<State, ImportError>)
    ensures r.Failure? <==> exists k :: 0 <= k < |chunks| && Rejects(chunks[k], settings.allowed)
    ensures r.Failure? ==> exists k :: && 0 <= k < |chunks| && Rejects(chunks[k], settings.allowed)
                                       && r.error == InvalidType(chunks[k][TypeKey])
                                       && forall j :: 0 <= j < k ==> !Rejects(chunks[j], settings.allowed)
    ensures r.Success? ==> r.value.pending <= st.pending && |st.items| <= |r.value.items|
    decreases |chunks|
  {
    if |chunks| == 0 then Success(st)
    else match ApplyChunk(st, chunks[0], settings, productCode, ids)
      case Failure(e) => Failure(e)
      case Success(st1) =>
        var rest := chunks[1..];
        var r := RunChunks(st1, rest, settings, productCode, ids);
        assert forall k :: 0 <= k < |rest| ==> rest[k] == chunks[k + 1];
        if r.Failure? then
          var k :| && 0 <= k < |rest| && Rejects(rest[k], settings.allowed)
                   && r.error == InvalidType(rest[k][TypeKey])
                   && forall j :: 0 <= j < k ==> !Rejects(rest[j], settings.allowed);
          assert forall j :: 0 <= j < k + 1 ==> !Rejects(chunks[j], settings.allowed) by {
            forall j | 0 < j < k + 1
              ensures !Rejects(chunks[j], settings.allowed)
            {
              assert chunks[j] == rest[j - 1];
            }
          }
          r
        else
          assert forall k :: 1 <= k < |chunks| ==> !Rejects(chunks[k], settings.allowed) by {
            forall k | 1 <= k < |chunks|
              ensures !Rejects(chunks[k], settings.allowed)
            {
              assert chunks[k] == rest[k - 1];
            }
          }
          r
  }

  /** A successful run keeps every item it started with in place, as the same stored item. */
  lemma {:induction false} RunChunksKeeps(st: State, chunks: seq<Chunk>, settings: Settings, productCode: string,
                                          ids: map<string, int>)
    requires RunChunks(st, chunks, settings, productCode, ids).Success?
    ensures |st.items| <= |RunChunks(st, chunks, settings, productCode, ids).value.items|
    ensures forall j :: 0 <= j < |st.items| ==>
              SameProfile(st.items[j], RunChunks(st, chunks, settings, productCode, ids).value.items[j])
    decreases |chunks|
  {
    if |chunks| > 0 {
      var st1 := ApplyChunk(st, chunks[0], settings, productCode, ids).value;
      var st' := RunChunks(st1, chunks[1..], settings, productCode, ids).value;
      assert RunChunks(st, chunks, settings, productCode, ids).value == st';
      assert |st.items| <= |st1.items| && forall j :: 0 <= j < |st.items| ==> SameProfile(st.items[j], st1.items[j]);
      RunChunksKeeps(st1, chunks[1..], settings, productCode, ids);
    }
  }

  /** A successful run logs the warnings of all its chunks, in order. */
  lemma {:induction false} RunChunksWarnings(st: State, chunks: seq<Chunk>, settings: Settings, productCode: string,
                                             ids: map<string, int>)
    requires RunChunks(st, chunks, settings, productCode, ids).Success?
    ensures RunChunks(st, chunks, settings, productCode, ids).value.warnings
         == st.warnings + ExpectedWarnings(chunks, settings, productCode, ids)
    decreases |chunks|
  {
    if |chunks| > 0 {
      var chunk := chunks[0];
      var st1 := ApplyChunk(st, chunk, settings, productCode, ids).value;
      assert RunChunks(st, chunks, settings, productCode, ids) == RunChunks(st1, chunks[1..], settings, productCode, ids);
      var w0 := if CodeKey in chunk then UnknownCodes(Pieces(chunk[CodeKey], settings.separator), productCode, ids)
                else [];
      var w1 := ExpectedWarnings(chunks[1..], settings, productCode, ids);
      RunChunksWarnings(st1, chunks[1..], settings, productCode, ids);
      assert st1.warnings == st.warnings + w0 by {
        if CodeKey in chunk {
          ApplyCodesWarnings(st, chunk, ListTypeOf(chunk), Pieces(chunk[CodeKey], settings.separator),
                             productCode, ids);
        }
      }
      assert ExpectedWarnings(chunks, settings, productCode, ids) == w0 + w1;
      AppendAssoc(st.warnings, w0, w1);
    }
  }

  /** The positions below `n` inside (`inPending`) or outside `pending`, in ascending order. */
  function Chosen(n: nat, pending: set<int>, inPending: bool): (idx: seq<nat>)
    ensures forall k :: 0 <= k < |idx| ==> idx[k] < n && (idx[k] in pending) == inPending
    ensures forall i :: 0 <= i < n && (i in pending) == inPending ==> i in idx
    ensures forall k, l :: 0 <= k < l < |idx| ==> idx[k] < idx[l]
    decreases n
  {
    if n == 0 then []
    else Chosen(n - 1, pending, inPending) + (if (n - 1 in pending) == inPending then [n - 1] else [])
  }

  /** Every position below `n` is chosen on exactly one side of `pending`. */
  lemma {:induction false} ChosenPartition(n: nat, pending: set<int>)
    ensures |Chosen(n, pending, false)| + |Chosen(n, pending, true)| == n
    decreases n
  {
    if n > 0 {
      ChosenPartition(n - 1, pending);
    }
  }

  /**
   The items at positions inside (`inPending`) or outside `pending`: item `k`
   of the result is the item at the `k`-th such position, so list order is kept.
   */
  function Select(items: seq<ListItem>, pending: set<int>, inPending: bool): (r: seq<ListItem>)
    ensures |r| == |Chosen(|items|, pending, inPending)|
    ensures forall k :: 0 <= k < |r| ==> r[k] == items[Chosen(|items|, pending, inPending)[k]]
    ensures forall x :: x in r <==> exists i :: 0 <= i < |items| && (i in pending) == inPending && items[i] == x
    decreases |items|
  {
    if |items| == 0 then []
    else
      var n := |items| - 1;
      var front := Select(items[..n], pending, inPending);
      var r := front + (if (n in pending) == inPending then [items[n]] else []);
      SelectStep(items, pending, inPending, front);
      SelectMembers(items, pending, inPending, r);
      r
  }

  /** Extending the selection of all but the last item by that item, when it is chosen, selects from the whole list. */
  lemma SelectStep(items: seq<ListItem>, pending: set<int>, inPending: bool, front: seq<ListItem>)
    requires |items| > 0
    requires |front| == |Chosen(|items| - 1, pending, inPending)|
    requires forall k :: 0 <= k < |front| ==> front[k] == items[..|items| - 1][Chosen(|items| - 1, pending, inPending)[k]]
    ensures var n := |items| - 1;
            var r := front + (if (n in pending) == inPending then [items[n]] else []);
            && |r| == |Chosen(|items|, pending, inPending)|
            && forall k :: 0 <= k < |r| ==> r[k] == items[Chosen(|items|, pending, inPending)[k]]
  {
    var n := |items| - 1;
    var r := front + (if (n in pending) == inPending then [items[n]] else []);
    var idx := Chosen(n, pending, inPending);
    assert Chosen(|items|, pending, inPending) == idx + (if (n in pending) == inPending then [n] else []);
    forall k | 0 <= k < |front|
      ensures r[k] == items[idx[k]]
    {
      assert r[k] == front[k] == items[..n][idx[k]];
    }
  }

  /** A selection by ascending chosen positions holds exactly the items at those positions. */
  lemma SelectMembers(items: seq<ListItem>, pending: set<int>, inPending: bool, r: seq<ListItem>)
    requires |r| == |Chosen(|items|, pending, inPending)|
    requires forall k :: 0 <= k < |r| ==> r[k] == items[Chosen(|items|, pending, inPending)[k]]
    ensures forall x :: x in r <==> exists i :: 0 <= i < |items| && (i in pending) == inPending && items[i] == x
  {
    var idx := Chosen(|items|, pending, inPending);
    forall x | x in r
      ensures exists i :: 0 <= i < |items| && (i in pending) == inPending && items[i] == x
    {
      var k :| 0 <= k < |r| && r[k] == x;
      assert items[idx[k]] == x;
    }
    forall i | 0 <= i < |items| && (i in pending) == inPending
      ensures items[i] in r
    {
      var k :| 0 <= k < |idx| && idx[k] == i;
      assert r[k] == items[i];
    }
  }

  /** Deletion splits the list: every item is either kept or deleted, never both and never neither. */
  lemma SelectPartition(items: seq<ListItem>, pending: set<int>)
    ensures |Select(items, pending, false)| + |Select(items, pending, true)| == |items|
  {
    ChosenPartition(|items|, pending);
  }

  /** What `process` leaves behind: the updated product, the deleted items, the log, and the next processor's result. */
  datatype Outcome = Outcome(product: Product, deleted: seq<ListItem>, warnings: seq<Warning>, rest: Row)

  /** The positions of the product-domain items: the pending-deletion snapshot. */
  function ProductPositions(items: seq<ListItem>): set<int>
  {
    set i | 0 <= i < |items| && items[i].domain == Domain
  }

  /**
   `process`: reconciles the product's product-domain list items with the row's
   chunks, deletes those still pending, and hands the reconciled product and the
   row to the next processor.
   */
  function Process(product: Product, row: Row, chunks: seq<Chunk>, settings: Settings,
                   ids: map<string, int>, next: (Product, Row) -> Row): (r: Result<Outcome, ImportError>)
    ensures r.Failure? <==> exists k :: 0 <= k < |chunks| && Rejects(chunks[k], settings.allowed)
    ensures r.Failure? ==> exists k :: && 0 <= k < |chunks| && Rejects(chunks[k], settings.allowed)
                                       && r.error == InvalidType(chunks[k][TypeKey])
                                       && forall j :: 0 <= j < k ==> !Rejects(chunks[j], settings.allowed)
    ensures r.Success? ==> r.value.rest == next(r.value.product, row) && r.value.product.code == product.code
  {
    var st0 := State(product.listItems, ProductPositions(product.listItems), []);
    match RunChunks(st0, chunks, settings, product.code, ids)
    case Failure(e) => Failure(e)
    case Success(st) =>
      var kept := Select(st.items, st.pending, false);
      var deleted := Select(st.items, st.pending, true);
      var reconciled := Product(product.code, kept);
      Success(Outcome(reconciled, deleted, st.warnings, next(reconciled, row)))
  }
}
