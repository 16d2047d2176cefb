/** The shipping-fee repository: paginated listing and lookup and removal
    by the business key (seller_id, sku), over the in-memory store. */
module FreteRepositories {
  import opened Records
  import opened Sorting
  import opened MemoryRepository

  /** A page request: `limit`, `offset`, and the sort dict
      `get_sort_order()` yields. */
  datatype Paginator = Paginator(limit: int, offset: int, sortOrder: SortSpec)

  /** The record has both the given `seller_id` and the given `sku`. */
  predicate KeyMatch(r: Record, sellerId: string, sku: string) {
    Get(r, "seller_id") == VStr(sellerId) && Get(r, "sku") == VStr(sku)
  }

  /** `{"seller_id": seller_id, "sku": sku}`. */
  function KeyFilters(sellerId: string, sku: string): Filters {
    [("seller_id", VStr(sellerId)), ("sku", VStr(sku))]
  }

  /** The position of the first record with the key, `|mem|` if none. */
  function KeyIndex(mem: seq<Record>, sellerId: string, sku: string): (i: nat)
    ensures i <= |mem|
    ensures i < |mem| ==> KeyMatch(mem[i], sellerId, sku)
    ensures forall j :: 0 <= j < i ==> !KeyMatch(mem[j], sellerId, sku)
  {
    if mem == [] then 0
    else if KeyMatch(mem[0], sellerId, sku) then 0
    else 1 + KeyIndex(mem[1..], sellerId, sku)
  }

  /** The first record in store order with the key, if any. */
  function Lookup(mem: seq<Record>, sellerId: string, sku: string): (r: Option<Record>)
    ensures r.None? <==> forall j :: 0 <= j < |mem| ==> !KeyMatch(mem[j], sellerId, sku)
    ensures r.Some? ==> r.value in mem && KeyMatch(r.value, sellerId, sku)
  {
    var i := KeyIndex(mem, sellerId, sku);
    if i == |mem| then None else Some(mem[i])
  }

  /** `delete_one({"seller_id": seller_id, "sku": sku})`: the first record
      with the key goes. */
  function RemoveFirstKey(mem: seq<Record>, sellerId: string, sku: string): seq<Record> {
    var i := KeyIndex(mem, sellerId, sku);
    if i == |mem| then mem else mem[..i] + mem[i + 1..]
  }

  lemma AcceptsKeyFilters(r: Record, sellerId: string, sku: string)
    ensures Accepts(r, KeyFilters(sellerId, sku)) <==> KeyMatch(r, sellerId, sku)
  {
    var f := KeyFilters(sellerId, sku);
    if KeyMatch(r, sellerId, sku) {
      forall i | 0 <= i < |f|
        ensures f[i].1 == VNone || Get(r, f[i].0) == f[i].1
      {
      }
    }
    if Accepts(r, f) {
      assert Get(r, f[0].0) == f[0].1;
      assert Get(r, f[1].0) == f[1].1;
    }
  }

  /** The key filter passes nothing before the first match, and passes it. */
  lemma {:induction false} KeyFilterHead(mem: seq<Record>, sellerId: string, sku: string)
    ensures var f := FilterBy(mem, KeyFilters(sellerId, sku));
            var i := KeyIndex(mem, sellerId, sku);
            && (f == [] <==> i == |mem|)
            && (f != [] ==> f[0] == mem[i])
  {
    if mem != [] {
      AcceptsKeyFilters(mem[0], sellerId, sku);
      KeyFilterHead(mem[1..], sellerId, sku);
    }
  }

  /** Looking the key up through `find` with the default page (limit 10,
      offset 0) and no sort yields the first record with the key, and
      nothing exactly when no record has it. */
  lemma LookupViaFind(mem: seq<Record>, sellerId: string, sku: string)
    ensures var page := FindSpec(mem, KeyFilters(sellerId, sku), 10, 0, []);
            && (page == [] <==> Lookup(mem, sellerId, sku).None?)
            && (page != [] ==> page[0] == Lookup(mem, sellerId, sku).value)
  {
    var f := FilterBy(mem, KeyFilters(sellerId, sku));
    assert CleanSort([]) == [];
    OrderedNoKeys(f);
    KeyFilterHead(mem, sellerId, sku);
  }

  /** Looking up after appending a record finds an earlier match first. */
  lemma {:induction false} LookupAppend(mem: seq<Record>, x: Record, sellerId: string, sku: string)
    ensures Lookup(mem + [x], sellerId, sku)
            == if Lookup(mem, sellerId, sku).Some? then Lookup(mem, sellerId, sku)
               else if KeyMatch(x, sellerId, sku) then Some(x) else None
  {
    var i := KeyIndex(mem, sellerId, sku);
    var m := mem + [x];
    var j := KeyIndex(m, sellerId, sku);
    if i < |mem| {
      assert m[i] == mem[i];
      assert j == i;
    } else {
      assert forall t :: 0 <= t < |mem| ==> m[t] == mem[t];
      assert m[|mem|] == x;
    }
  }

  /** A delete with a match removes exactly one record, one with the key,
      and keeps the others in order. */
  lemma RemoveFirstKeySpec(mem: seq<Record>, sellerId: string, sku: string)
    requires Lookup(mem, sellerId, sku).Some?
    ensures var r := RemoveFirstKey(mem, sellerId, sku);
            && |r| == |mem| - 1
            && multiset(mem) == multiset(r) + multiset{Lookup(mem, sellerId, sku).value}
            && IsSubseq(r, mem)
  {
    var i := KeyIndex(mem, sellerId, sku);
    var r := RemoveFirstKey(mem, sellerId, sku);
    assert mem == mem[..i] + [mem[i]] + mem[i + 1..];
    RemoveAtIsSubseq(mem, i);
  }

  lemma {:induction false} RemoveAtIsSubseq(s: seq<Record>, i: nat)
    requires i < |s|
    ensures IsSubseq(s[..i] + s[i + 1..], s)
  {
    var r := s[..i] + s[i + 1..];
    if i == 0 {
      assert r == s[1..];
      SubseqReflexive(s[1..]);
    } else {
      RemoveAtIsSubseq(s[1..], i - 1);
      assert r[0] == s[0];
      assert r[1..] == s[1..][..i - 1] + s[1..][i..];
    }
  }

  /** Without a match a delete keeps the store as it is. */
  lemma RemoveFirstKeyNoMatch(mem: seq<Record>, sellerId: string, sku: string)
    requires Lookup(mem, sellerId, sku).None?
    ensures RemoveFirstKey(mem, sellerId, sku) == mem
  {
  }

  class FreteRepository {
    /** The store the repository reads and writes. */
    const store: AsyncMemoryRepository

    constructor()
      ensures fresh(store) && store.memory == [] && store.keyName == "_id"
    {
      store := new AsyncMemoryRepository("_id");
    }

    /** `find` with the filters unchanged and the page request's limit,
        offset and sort dict. */
    method FindAll(paginator: Paginator, filters: Filters) returns (r: seq<Record>)
      ensures r == FindSpec(store.memory, filters, paginator.limit, paginator.offset, paginator.sortOrder)
    {
      r := store.Find(filters, paginator.limit, paginator.offset, paginator.sortOrder);
    }

    /** The first record with both fields, found with `find` and the
        default page; None when there is none. The store is only read. */
    method FindBySellerIdAndSku(sellerId: string, sku: string) returns (r: Option<Record>)
      ensures r == Lookup(store.memory, sellerId, sku)
    {
      var frete := store.Find(KeyFilters(sellerId, sku), 10, 0, []);
      LookupViaFind(store.memory, sellerId, sku);
      if |frete| == 0 {
        return None;
      }
      r := Some(frete[0]);
    }

    /** Fails with NotFound, leaving the store alone, when no record has the
        key; otherwise removes the first record that has it. */
    method DeleteBySellerIdAndSku(sellerId: string, sku: string) returns (o: Outcome)
      modifies store
      ensures Lookup(old(store.memory), sellerId, sku).None? ==>
                o == Fail(NotFound) && store.memory == old(store.memory)
      ensures Lookup(old(store.memory), sellerId, sku).Some? ==>
                o == Pass && store.memory == RemoveFirstKey(old(store.memory), sellerId, sku)
    {
      var frete := FindBySellerIdAndSku(sellerId, sku);
      if frete.None? {
        return Fail(NotFound);
      }
      store.memory := RemoveFirstKey(store.memory, sellerId, sku);
      o := Pass;
    }
  }
}
