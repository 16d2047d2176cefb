/** The shipping-fee service: the business rules on top of the repository
    (which error wins, which fields a PATCH or a PUT writes, the price
    range applied to a listed page). Each writing operation is a method of
    `FreteService` whose answer and new store equal a `...Spec` function of
    the store before it; the read-only ones leave the store alone and state
    their answer directly or by `FindAllSpec`/`FindOneSpec`. The lemmas are
    about those functions. */
module FreteServices {
  import opened Records
  import opened Sorting
  import opened MemoryRepository
  import opened FreteRepositories

  /** The body of a create request: `seller_id`, `sku`, `valor`. */
  datatype FreteSchema = FreteSchema(sellerId: string, sku: string, valor: int)

  /** The body of a PATCH: every field optional. */
  datatype FreteUpdate = FreteUpdate(sellerId: Option<string>, sku: Option<string>, valor: Option<int>)

  /** The body of a PUT: every field required. */
  datatype FreteReplace = FreteReplace(sellerId: string, sku: string, valor: int)

  /** What an operation answers, and the store it leaves. */
  datatype Step<+T> = Step(result: Result<T>, store: seq<Record>)

  function StrField(o: Option<string>): Value {
    match o
    case None => VNone
    case Some(s) => VStr(s)
  }

  function IntField(o: Option<int>): Value {
    match o
    case None => VNone
    case Some(i) => VInt(i)
  }

  /** `_validate_fretes_positivos`: an absent fee passes, a negative one is
      a bad request. */
  function ValidateFretesPositivos(valor: Option<int>): (o: Outcome)
    ensures o.Pass? <==> valor.None? || valor.value >= 0
    ensures o.Fail? ==> o.error == BadRequest
  {
    if valor.Some? && valor.value < 0 then Fail(BadRequest) else Pass
  }

  /** The record a new `Frete` dumps to, with the id it was given. */
  function NewFrete(f: FreteSchema, newId: string): Record {
    map["_id" := VId(newId), "seller_id" := VStr(f.sellerId), "sku" := VStr(f.sku), "valor" := VInt(f.valor)]
  }

  // ---------------------------------------------------------------------
  // The stored fees.

  /** A stored fee: a UUID id, string seller and sku, a non-negative fee. */
  predicate IsFrete(r: Record) {
    && Get(r, "_id").VId?
    && Get(r, "seller_id").VStr?
    && Get(r, "sku").VStr?
    && Get(r, "valor").VInt?
    && Get(r, "valor").i >= 0
  }

  predicate UniqueIds(mem: seq<Record>) {
    forall i, j :: 0 <= i < j < |mem| ==> Get(mem[i], "_id") != Get(mem[j], "_id")
  }

  /** What every operation keeps: all records are fees, ids are unique. */
  predicate StoreInvariant(mem: seq<Record>) {
    (forall i :: 0 <= i < |mem| ==> IsFrete(mem[i])) && UniqueIds(mem)
  }

  /** No two records share a (seller_id, sku). */
  predicate UniqueKeys(mem: seq<Record>) {
    forall i, j :: 0 <= i < j < |mem| ==>
      Get(mem[i], "seller_id") != Get(mem[j], "seller_id") || Get(mem[i], "sku") != Get(mem[j], "sku")
  }

  // ---------------------------------------------------------------------
  // `find_all`.

  /** `{"seller_id": seller_id} if seller_id else {}`. */
  function SellerFilter(filters: Record): Filters {
    var sellerId := Get(filters, "seller_id");
    if Truthy(sellerId) then [("seller_id", sellerId)] else []
  }

  /** A price bound the comparison accepts: absent, or an integer. */
  predicate IsBound(v: Value) {
    v.VNone? || v.VInt?
  }

  predicate PriceBounds(filters: Record) {
    IsBound(Get(filters, "preco_greater_than")) && IsBound(Get(filters, "preco_less_than"))
  }

  /** `preco_min <= valor <= preco_max`, a missing bound imposing nothing. */
  predicate InPriceRange(r: Record, lo: Value, hi: Value)
    requires IsBound(lo) && IsBound(hi)
  {
    var v := Get(r, "valor");
    && (lo.VNone? || (v.VInt? && v.i >= lo.i))
    && (hi.VNone? || (v.VInt? && v.i <= hi.i))
  }

  /** The list comprehension over the page. */
  function PriceFiltered(page: seq<Record>, lo: Value, hi: Value): seq<Record>
    requires IsBound(lo) && IsBound(hi)
  {
    if page == [] then []
    else (if InPriceRange(page[0], lo, hi) then [page[0]] else []) + PriceFiltered(page[1..], lo, hi)
  }

  lemma PriceFilteredSpec(page: seq<Record>, lo: Value, hi: Value)
    requires IsBound(lo) && IsBound(hi)
    ensures IsSubseq(PriceFiltered(page, lo, hi), page)
    ensures forall e :: e in PriceFiltered(page, lo, hi) <==> e in page && InPriceRange(e, lo, hi)
    ensures forall e :: multiset(PriceFiltered(page, lo, hi))[e]
                        == if InPriceRange(e, lo, hi) then multiset(page)[e] else 0
  {
    PriceFilteredSubseq(page, lo, hi);
    PriceFilteredMembers(page, lo, hi);
    PriceFilteredCounts(page, lo, hi);
  }

  lemma {:induction false} PriceFilteredSubseq(page: seq<Record>, lo: Value, hi: Value)
    requires IsBound(lo) && IsBound(hi)
    ensures IsSubseq(PriceFiltered(page, lo, hi), page)
  {
    if page != [] {
      var t := PriceFiltered(page[1..], lo, hi);
      PriceFilteredSubseq(page[1..], lo, hi);
      if InPriceRange(page[0], lo, hi) {
        var f := [page[0]] + t;
        assert PriceFiltered(page, lo, hi) == f;
        assert f != [] && f[0] == page[0] && f[1..] == t;
      } else {
        assert PriceFiltered(page, lo, hi) == t;
      }
    }
  }

  lemma {:induction false} PriceFilteredMembers(page: seq<Record>, lo: Value, hi: Value)
    requires IsBound(lo) && IsBound(hi)
    ensures forall e :: e in PriceFiltered(page, lo, hi) <==> e in page && InPriceRange(e, lo, hi)
  {
    if page != [] {
      PriceFilteredMembers(page[1..], lo, hi);
      assert page == [page[0]] + page[1..];
    }
  }

  /** Every fee in range is kept as many times as the page holds it. */
  lemma {:induction false} PriceFilteredCounts(page: seq<Record>, lo: Value, hi: Value)
    requires IsBound(lo) && IsBound(hi)
    ensures forall e :: multiset(PriceFiltered(page, lo, hi))[e]
                        == if InPriceRange(e, lo, hi) then multiset(page)[e] else 0
  {
    if page != [] {
      var h := page[0];
      var t := page[1..];
      PriceFilteredCounts(t, lo, hi);
      assert page == [h] + t;
      if InPriceRange(h, lo, hi) {
        assert PriceFiltered(page, lo, hi) == [h] + PriceFiltered(t, lo, hi);
      } else {
        assert PriceFiltered(page, lo, hi) == PriceFiltered(t, lo, hi);
      }
    }
  }

  /** The page the repository returns for the seller, narrowed to the
      price range afterwards. */
  function FindAllSpec(mem: seq<Record>, paginator: Paginator, filters: Record): seq<Record>
    requires PriceBounds(filters)
  {
    PriceFiltered(FindSpec(mem, SellerFilter(filters), paginator.limit, paginator.offset, paginator.sortOrder),
                  Get(filters, "preco_greater_than"), Get(filters, "preco_less_than"))
  }

  // ---------------------------------------------------------------------
  // Lookup, create, update, replace, delete.

  /** `find_by_seller_id_and_sku` and `_validate_frete_nao_existe`. */
  function FindOneSpec(mem: seq<Record>, sellerId: string, sku: string): (r: Result<Record>)
    ensures r.Err? <==> forall j :: 0 <= j < |mem| ==> !KeyMatch(mem[j], sellerId, sku)
    ensures r.Err? ==> r.error == NotFound
    ensures r.Ok? ==> r.value == mem[KeyIndex(mem, sellerId, sku)] && KeyMatch(r.value, sellerId, sku)
  {
    match Lookup(mem, sellerId, sku)
    case None => Err(NotFound)
    case Some(r) => Ok(r)
  }

  function CreateSpec(mem: seq<Record>, f: FreteSchema, newId: string, now: int): Step<Record> {
    if Lookup(mem, f.sellerId, f.sku).Some? then Step(Err(Conflict), mem)
    else if ValidateFretesPositivos(Some(f.valor)).Fail? then Step(Err(BadRequest), mem)
    else Step(Ok(NewFrete(f, newId)), mem + [NewFrete(f, newId)["created_at" := VInt(now)]])
  }

  /** `if value: record[field] = value`. */
  function Overwrite(r: Record, field: string, v: Value): Record {
    if Truthy(v) then r[field := v] else r
  }

  /** The PATCH merge: each of `seller_id`, `sku`, `valor` is written only
      when the given value is truthy. */
  function Patched(r: Record, u: FreteUpdate): Record {
    Overwrite(Overwrite(Overwrite(r, "seller_id", StrField(u.sellerId)), "sku", StrField(u.sku)),
              "valor", IntField(u.valor))
  }

  /** The PUT merge: all three fields are written. */
  function Replaced(r: Record, f: FreteReplace): Record {
    r["seller_id" := VStr(f.sellerId)]["sku" := VStr(f.sku)]["valor" := VInt(f.valor)]
  }

  lemma IdIndexOfMember(mem: seq<Record>, found: Record)
    requires found in mem
    ensures FirstIdIndex(mem, Get(found, "_id")) < |mem|
  {
    var j :| 0 <= j < |mem| && mem[j] == found;
  }

  /** `update(found["_id"], merged)`: the merged dict goes to the first
      record with that id. */
  function WriteBack(mem: seq<Record>, found: Record, merged: Record, now: int): Step<Record>
    requires found in mem
  {
    IdIndexOfMember(mem, found);
    var i := FirstIdIndex(mem, Get(found, "_id"));
    var doc := UpdatedDoc(mem[i], Plain(merged), now);
    Step(Ok(doc), mem[i := doc])
  }

  function UpdateValueSpec(mem: seq<Record>, sellerId: string, sku: string, u: FreteUpdate, now: int): Step<Record> {
    match Lookup(mem, sellerId, sku)
    case None => Step(Err(NotFound), mem)
    case Some(found) =>
      if ValidateFretesPositivos(u.valor).Fail? then Step(Err(BadRequest), mem)
      else WriteBack(mem, found, Patched(found, u), now)
  }

  function ReplaceSpec(mem: seq<Record>, sellerId: string, sku: string, f: FreteReplace, now: int): Step<Record> {
    match Lookup(mem, sellerId, sku)
    case None => Step(Err(NotFound), mem)
    case Some(found) =>
      if ValidateFretesPositivos(Some(f.valor)).Fail? then Step(Err(BadRequest), mem)
      else WriteBack(mem, found, Replaced(found, f), now)
  }

  function DeleteSpec(mem: seq<Record>, sellerId: string, sku: string): Step<()> {
    match Lookup(mem, sellerId, sku)
    case None => Step(Err(NotFound), mem)
    case Some(_) => Step(Ok(()), RemoveFirstKey(mem, sellerId, sku))
  }

  // ---------------------------------------------------------------------
  // The service object.

  class FreteService {
    const repository: FreteRepository

    constructor(repository: FreteRepository)
      ensures this.repository == repository
    {
      this.repository := repository;
    }

    /** Lists the seller's page (every seller's, without a truthy
        `seller_id`) and then keeps the fees in the price range. */
    method FindAll(paginator: Paginator, filters: Record) returns (r: seq<Record>)
      requires PriceBounds(filters)
      ensures r == FindAllSpec(repository.store.memory, paginator, filters)
    {
      var sellerId := Get(filters, "seller_id");
      var precoMin := Get(filters, "preco_greater_than");
      var precoMax := Get(filters, "preco_less_than");
      var allFretes := repository.FindAll(paginator, if Truthy(sellerId) then [("seller_id", sellerId)] else []);
      r := PriceFiltered(allFretes, precoMin, precoMax);
    }

    method FindBySellerIdAndSku(sellerId: string, sku: string) returns (r: Result<Record>)
      ensures r == FindOneSpec(repository.store.memory, sellerId, sku)
    {
      r := ValidateFreteNaoExiste(sellerId, sku);
    }

    /** Conflict when the key is already stored. */
    method ValidateFreteExiste(sellerId: string, sku: string) returns (o: Outcome)
      ensures o.Fail? <==> Lookup(repository.store.memory, sellerId, sku).Some?
      ensures o.Fail? ==> o.error == Conflict
    {
      var found := repository.FindBySellerIdAndSku(sellerId, sku);
      if found.Some? {
        return Fail(Conflict);
      }
      o := Pass;
    }

    /** NotFound when the key is not stored; the stored record otherwise. */
    method ValidateFreteNaoExiste(sellerId: string, sku: string) returns (r: Result<Record>)
      ensures r == FindOneSpec(repository.store.memory, sellerId, sku)
    {
      var found := repository.FindBySellerIdAndSku(sellerId, sku);
      if found.None? {
        return Err(NotFound);
      }
      r := Ok(found.value);
    }

    method CreateFrete(freteCreate: FreteSchema, newId: string, now: int) returns (r: Result<Record>)
      modifies repository.store
      ensures var st := CreateSpec(old(repository.store.memory), freteCreate, newId, now);
              r == st.result && repository.store.memory == st.store
    {
      var conflict := ValidateFreteExiste(freteCreate.sellerId, freteCreate.sku);
      if conflict.Fail? {
        return Err(conflict.error);
      }
      var valid := ValidateFretesPositivos(Some(freteCreate.valor));
      if valid.Fail? {
        return Err(valid.error);
      }
      var frete := NewFrete(freteCreate, newId);
      var created := repository.store.Create(frete, now);
      r := Ok(created);
    }

    method UpdateFreteValue(sellerId: string, sku: string, freteUpdate: FreteUpdate, now: int) returns (r: Result<Record>)
      modifies repository.store
      ensures var st := UpdateValueSpec(old(repository.store.memory), sellerId, sku, freteUpdate, now);
              r == st.result && repository.store.memory == st.store
    {
      var existing := ValidateFreteNaoExiste(sellerId, sku);
      if existing.Err? {
        return Err(existing.error);
      }
      var valid := ValidateFretesPositivos(freteUpdate.valor);
      if valid.Fail? {
        return Err(valid.error);
      }
      var merged := existing.value;
      if Truthy(StrField(freteUpdate.sellerId)) {
        merged := merged["seller_id" := StrField(freteUpdate.sellerId)];
      }
      if Truthy(StrField(freteUpdate.sku)) {
        merged := merged["sku" := StrField(freteUpdate.sku)];
      }
      if Truthy(IntField(freteUpdate.valor)) {
        merged := merged["valor" := IntField(freteUpdate.valor)];
      }
      IdIndexOfMember(repository.store.memory, existing.value);
      var updated := repository.store.Update(Get(existing.value, "_id"), Plain(merged), now);
      if updated.None? {
        assert false;
      }
      r := Ok(updated.value);
    }

    method ReplaceFrete(sellerId: string, sku: string, freteUpdate: FreteReplace, now: int) returns (r: Result<Record>)
      modifies repository.store
      ensures var st := ReplaceSpec(old(repository.store.memory), sellerId, sku, freteUpdate, now);
              r == st.result && repository.store.memory == st.store
    {
      var existing := ValidateFreteNaoExiste(sellerId, sku);
      if existing.Err? {
        return Err(existing.error);
      }
      var valid := ValidateFretesPositivos(Some(freteUpdate.valor));
      if valid.Fail? {
        return Err(valid.error);
      }
      var merged := existing.value;
      merged := merged["seller_id" := VStr(freteUpdate.sellerId)];
      merged := merged["sku" := VStr(freteUpdate.sku)];
      merged := merged["valor" := VInt(freteUpdate.valor)];
      IdIndexOfMember(repository.store.memory, existing.value);
      var updated := repository.store.Update(Get(existing.value, "_id"), Plain(merged), now);
      if updated.None? {
        assert false;
      }
      r := Ok(updated.value);
    }

    /** NotFound when the key is absent; otherwise the repository removes
        the first record with it. (The record found has the key's fields,
        so it is never an empty, falsy dict.) */
    method DeleteBySellerIdAndSku(sellerId: string, sku: string) returns (r: Result<()>)
      modifies repository.store
      ensures var st := DeleteSpec(old(repository.store.memory), sellerId, sku);
              r == st.result && repository.store.memory == st.store
    {
      var found := ValidateFreteNaoExiste(sellerId, sku);
      if found.Err? {
        return Err(found.error);
      }
      var _ := repository.DeleteBySellerIdAndSku(sellerId, sku);
      r := Ok(());
    }
  }

  // ---------------------------------------------------------------------
  // `find_all`.

  /** `find_all` narrows the repository page by seller only for a truthy
      `seller_id`, and keeps exactly the page's fees whose `valor` lies in
      the inclusive price range, in page order. */
  lemma FindAllNarrowsPage(mem: seq<Record>, paginator: Paginator, filters: Record)
    requires PriceBounds(filters)
    ensures var lo := Get(filters, "preco_greater_than");
            var hi := Get(filters, "preco_less_than");
            var page := FindSpec(mem, SellerFilter(filters), paginator.limit, paginator.offset, paginator.sortOrder);
            var r := FindAllSpec(mem, paginator, filters);
            && IsSubseq(r, page)
            && |r| <= |page|
            && (paginator.limit >= 0 && paginator.offset >= 0 ==> |r| <= paginator.limit)
            && (forall e :: e in r <==> e in page && InPriceRange(e, lo, hi))
            && (forall e :: multiset(r)[e] == if InPriceRange(e, lo, hi) then multiset(page)[e] else 0)
            && (forall e :: e in r ==> e in mem)
            && (Truthy(Get(filters, "seller_id")) ==>
                  forall e :: e in r ==> Get(e, "seller_id") == Get(filters, "seller_id"))
            && (!Truthy(Get(filters, "seller_id")) ==>
                  page == FindSpec(mem, [], paginator.limit, paginator.offset, paginator.sortOrder))
  {
    var lo := Get(filters, "preco_greater_than");
    var hi := Get(filters, "preco_less_than");
    var sf := SellerFilter(filters);
    var page := FindSpec(mem, sf, paginator.limit, paginator.offset, paginator.sortOrder);
    var r := FindAllSpec(mem, paginator, filters);
    PriceFilteredSpec(page, lo, hi);
    SubseqLength(r, page);
    FindWithSort(mem, sf, paginator.limit, paginator.offset, paginator.sortOrder);
    if paginator.limit >= 0 && paginator.offset >= 0 {
      PageSpec(Ordered(FilterBy(mem, sf), SortKeys(CleanSort(paginator.sortOrder))), paginator.offset, paginator.limit);
    }
    if Truthy(Get(filters, "seller_id")) {
      forall e | e in r
        ensures Get(e, "seller_id") == Get(filters, "seller_id")
      {
        assert Accepts(e, sf);
        assert sf[0] == ("seller_id", Get(filters, "seller_id"));
      }
    }
  }

  /** The price range is applied after paging: a page can come back empty
      although a later fee of the seller is in range. */
  lemma PriceRangeAfterPaging()
    ensures var a := map["_id" := VId("a"), "seller_id" := VStr("s"), "sku" := VStr("x"), "valor" := VInt(5)];
            var b := map["_id" := VId("b"), "seller_id" := VStr("s"), "sku" := VStr("y"), "valor" := VInt(50)];
            var filters := map["seller_id" := VStr("s"), "preco_greater_than" := VInt(10)];
            && PriceBounds(filters)
            && InPriceRange(b, VInt(10), VNone)
            && FindAllSpec([a, b], Paginator(1, 0, []), filters) == []
  {
    var a := map["_id" := VId("a"), "seller_id" := VStr("s"), "sku" := VStr("x"), "valor" := VInt(5)];
    var b := map["_id" := VId("b"), "seller_id" := VStr("s"), "sku" := VStr("y"), "valor" := VInt(50)];
    var filters := map["seller_id" := VStr("s"), "preco_greater_than" := VInt(10)];
    var sf := SellerFilter(filters);
    assert sf == [("seller_id", VStr("s"))];
    assert Accepts(a, sf) && Accepts(b, sf);
    var f := FilterBy([a, b], sf);
    assert [a, b][1..] == [b] && [b][1..] == [];
    assert FilterBy([b], sf) == [b];
    assert f == [a, b];
    assert CleanSort([]) == [];
    OrderedNoKeys(f);
    assert FindSpec([a, b], sf, 1, 0, []) == [a];
    assert !InPriceRange(a, VInt(10), VNone);
  }

  // ---------------------------------------------------------------------
  // Which error wins; a failure writes nothing.

  /** On create the conflict check comes first: an existing key gives
      Conflict even with a negative fee; only then does a negative fee
      give BadRequest. A failed create leaves the store unchanged. */
  lemma CreateChecksConflictFirst(mem: seq<Record>, f: FreteSchema, newId: string, now: int)
    ensures var st := CreateSpec(mem, f, newId, now);
            var found := Lookup(mem, f.sellerId, f.sku);
            && (st.result == Err(Conflict) <==> found.Some?)
            && (st.result == Err(BadRequest) <==> found.None? && f.valor < 0)
            && (st.result.Ok? <==> found.None? && f.valor >= 0)
            && (st.result.Err? ==> st.store == mem)
            && (st.result.Ok? ==> st.result.value == NewFrete(f, newId)
                                  && st.store == mem + [NewFrete(f, newId)["created_at" := VInt(now)]])
  {
  }

  /** On PATCH the lookup comes first: a missing key gives NotFound even
      with a negative fee. A failed PATCH leaves the store unchanged. */
  lemma UpdateChecksNotFoundFirst(mem: seq<Record>, sellerId: string, sku: string, u: FreteUpdate, now: int)
    ensures var st := UpdateValueSpec(mem, sellerId, sku, u, now);
            var found := Lookup(mem, sellerId, sku);
            && (st.result == Err(NotFound) <==> found.None?)
            && (st.result == Err(BadRequest) <==> found.Some? && u.valor.Some? && u.valor.value < 0)
            && (st.result.Ok? <==> found.Some? && (u.valor.None? || u.valor.value >= 0))
            && (st.result.Err? ==> st.store == mem)
  {
  }

  /** On PUT the lookup comes first, then the fee check. A failed PUT
      leaves the store unchanged. */
  lemma ReplaceChecksNotFoundFirst(mem: seq<Record>, sellerId: string, sku: string, f: FreteReplace, now: int)
    ensures var st := ReplaceSpec(mem, sellerId, sku, f, now);
            var found := Lookup(mem, sellerId, sku);
            && (st.result == Err(NotFound) <==> found.None?)
            && (st.result == Err(BadRequest) <==> found.Some? && f.valor < 0)
            && (st.result.Ok? <==> found.Some? && f.valor >= 0)
            && (st.result.Err? ==> st.store == mem)
  {
  }

  /** Delete fails with NotFound exactly when the key is absent, and then
      leaves the store unchanged; otherwise one record with the key goes. */
  lemma DeleteOutcome(mem: seq<Record>, sellerId: string, sku: string)
    ensures var st := DeleteSpec(mem, sellerId, sku);
            && (st.result == Err(NotFound) <==> Lookup(mem, sellerId, sku).None?)
            && (st.result.Err? ==> st.store == mem)
            && (st.result.Ok? ==> |st.store| == |mem| - 1
                                  && multiset(mem) == multiset(st.store) + multiset{Lookup(mem, sellerId, sku).value}
                                  && IsSubseq(st.store, mem))
  {
    if Lookup(mem, sellerId, sku).Some? {
      RemoveFirstKeySpec(mem, sellerId, sku);
    }
  }

  // ---------------------------------------------------------------------
  // Round trips.

  /** A created fee is what a lookup of its key then finds. */
  lemma CreateThenFind(mem: seq<Record>, f: FreteSchema, newId: string, now: int)
    requires CreateSpec(mem, f, newId, now).result.Ok?
    ensures FindOneSpec(CreateSpec(mem, f, newId, now).store, f.sellerId, f.sku)
            == Ok(NewFrete(f, newId)["created_at" := VInt(now)])
  {
    var x := NewFrete(f, newId)["created_at" := VInt(now)];
    assert KeyMatch(x, f.sellerId, f.sku);
    LookupAppend(mem, x, f.sellerId, f.sku);
  }

  /** Creating the same key again is a Conflict, whatever the fee. */
  lemma CreateTwiceConflicts(mem: seq<Record>, f: FreteSchema, g: FreteSchema,
                             id1: string, id2: string, now1: int, now2: int)
    requires CreateSpec(mem, f, id1, now1).result.Ok?
    requires g.sellerId == f.sellerId && g.sku == f.sku
    ensures CreateSpec(CreateSpec(mem, f, id1, now1).store, g, id2, now2) == Step(Err(Conflict), CreateSpec(mem, f, id1, now1).store)
  {
    CreateThenFind(mem, f, id1, now1);
  }

  /** With unique keys, a delete that succeeds removes the key, so deleting
      it again is NotFound. */
  lemma DeleteTwiceNotFound(mem: seq<Record>, sellerId: string, sku: string)
    requires UniqueKeys(mem)
    requires DeleteSpec(mem, sellerId, sku).result.Ok?
    ensures DeleteSpec(DeleteSpec(mem, sellerId, sku).store, sellerId, sku).result == Err(NotFound)
  {
    var i := KeyIndex(mem, sellerId, sku);
    var r := mem[..i] + mem[i + 1..];
    assert DeleteSpec(mem, sellerId, sku).store == r;
    forall j | 0 <= j < |r|
      ensures !KeyMatch(r[j], sellerId, sku)
    {
      if j >= i {
        assert r[j] == mem[j + 1];
      }
    }
  }

  // ---------------------------------------------------------------------
  // What PATCH and PUT write.

  /** Each PATCH field is taken only when its value is truthy; every other
      field of the record stays as it was. */
  lemma PatchedSpec(r: Record, u: FreteUpdate)
    ensures var p := Patched(r, u);
            && Get(p, "seller_id") == (if Truthy(StrField(u.sellerId)) then StrField(u.sellerId) else Get(r, "seller_id"))
            && Get(p, "sku") == (if Truthy(StrField(u.sku)) then StrField(u.sku) else Get(r, "sku"))
            && Get(p, "valor") == (if Truthy(IntField(u.valor)) then IntField(u.valor) else Get(r, "valor"))
            && (forall k :: k in r ==> k in p)
            && (forall k :: k != "seller_id" && k != "sku" && k != "valor" ==>
                  (k in p <==> k in r) && (k in r ==> p[k] == r[k]))
  {
  }

  /** With unique ids the stored id of a record finds that record. */
  lemma IdIndexUnique(mem: seq<Record>, i: nat)
    requires StoreInvariant(mem) && i < |mem|
    ensures FirstIdIndex(mem, Get(mem[i], "_id")) == i
  {
    var j := FirstIdIndex(mem, Get(mem[i], "_id"));
    assert IsFrete(mem[i]);
    assert j <= i;
    assert IsFrete(mem[j]);
    assert Get(mem[j], "_id") == Get(mem[i], "_id");
  }

  /** Merging a dict that already holds every field of the record yields
      that dict, stamped. */
  lemma MergeOverSuperset(doc: Record, merged: Record, now: int)
    requires forall k :: k in doc ==> k in merged
    ensures UpdatedDoc(doc, Plain(merged), now) == merged["updated_at" := VInt(now)]
  {
  }

  /** A successful PATCH writes, in the place of the record found, that
      record with the truthy fields taken and `updated_at` stamped; its
      `_id` is kept and the other records are untouched. */
  lemma UpdateWritesFound(mem: seq<Record>, sellerId: string, sku: string, u: FreteUpdate, now: int)
    requires StoreInvariant(mem)
    requires UpdateValueSpec(mem, sellerId, sku, u, now).result.Ok?
    ensures var i := KeyIndex(mem, sellerId, sku);
            && i < |mem|
            && var doc := Patched(mem[i], u)["updated_at" := VInt(now)];
               && UpdateValueSpec(mem, sellerId, sku, u, now) == Step(Ok(doc), mem[i := doc])
               && Get(doc, "_id") == Get(mem[i], "_id")
  {
    var i := KeyIndex(mem, sellerId, sku);
    IdIndexUnique(mem, i);
    PatchedSpec(mem[i], u);
    MergeOverSuperset(mem[i], Patched(mem[i], u), now);
  }

  /** A PATCH whose `valor` is 0 (falsy) leaves the stored fee as it was. */
  lemma PatchWithZeroValorKeepsValor(mem: seq<Record>, sellerId: string, sku: string, u: FreteUpdate, now: int)
    requires StoreInvariant(mem)
    requires Lookup(mem, sellerId, sku).Some?
    requires u.valor == Some(0)
    ensures var st := UpdateValueSpec(mem, sellerId, sku, u, now);
            && st.result.Ok?
            && Get(st.result.value, "valor") == Get(Lookup(mem, sellerId, sku).value, "valor")
  {
    UpdateWritesFound(mem, sellerId, sku, u, now);
    PatchedSpec(Lookup(mem, sellerId, sku).value, u);
  }

  /** A successful PUT writes all three fields into the record found,
      keeps its `_id`, and stamps `updated_at`. */
  lemma ReplaceWritesFound(mem: seq<Record>, sellerId: string, sku: string, f: FreteReplace, now: int)
    requires StoreInvariant(mem)
    requires ReplaceSpec(mem, sellerId, sku, f, now).result.Ok?
    ensures var i := KeyIndex(mem, sellerId, sku);
            && i < |mem|
            && var doc := Replaced(mem[i], f)["updated_at" := VInt(now)];
               && ReplaceSpec(mem, sellerId, sku, f, now) == Step(Ok(doc), mem[i := doc])
               && Get(doc, "seller_id") == VStr(f.sellerId)
               && Get(doc, "sku") == VStr(f.sku)
               && Get(doc, "valor") == VInt(f.valor)
               && Get(doc, "_id") == Get(mem[i], "_id")
  {
    var i := KeyIndex(mem, sellerId, sku);
    IdIndexUnique(mem, i);
    MergeOverSuperset(mem[i], Replaced(mem[i], f), now);
  }

  /** PUT does not check the new key: it can give two records the same
      (seller_id, sku). */
  lemma ReplaceCanDuplicateKey()
    ensures var a := map["_id" := VId("a"), "seller_id" := VStr("s"), "sku" := VStr("x"), "valor" := VInt(1)];
            var b := map["_id" := VId("b"), "seller_id" := VStr("s"), "sku" := VStr("y"), "valor" := VInt(2)];
            var st := ReplaceSpec([a, b], "s", "y", FreteReplace("s", "x", 3), 0);
            && StoreInvariant([a, b])
            && UniqueKeys([a, b])
            && st.result.Ok?
            && !UniqueKeys(st.store)
  {
    var a := map["_id" := VId("a"), "seller_id" := VStr("s"), "sku" := VStr("x"), "valor" := VInt(1)];
    var b := map["_id" := VId("b"), "seller_id" := VStr("s"), "sku" := VStr("y"), "valor" := VInt(2)];
    var mem := [a, b];
    SampleStore(a, b);
    var st := ReplaceSpec(mem, "s", "y", FreteReplace("s", "x", 3), 0);
    ReplaceWritesFound(mem, "s", "y", FreteReplace("s", "x", 3), 0);
    assert st.store[0] == a;
    assert Get(st.store[1], "seller_id") == VStr("s") && Get(st.store[1], "sku") == VStr("x");
  }

  lemma SampleStore(a: Record, b: Record)
    requires a == map["_id" := VId("a"), "seller_id" := VStr("s"), "sku" := VStr("x"), "valor" := VInt(1)]
    requires b == map["_id" := VId("b"), "seller_id" := VStr("s"), "sku" := VStr("y"), "valor" := VInt(2)]
    ensures StoreInvariant([a, b]) && UniqueKeys([a, b])
    ensures KeyIndex([a, b], "s", "y") == 1 && Lookup([a, b], "s", "y") == Some(b)
  {
    var mem := [a, b];
    assert IsFrete(a) && IsFrete(b);
    assert !KeyMatch(a, "s", "y") && KeyMatch(b, "s", "y");
    assert mem[1..] == [b];
  }

  // ---------------------------------------------------------------------
  // The store invariant.

  /** Create keeps the invariant when the new id is fresh. */
  lemma CreatePreservesInvariant(mem: seq<Record>, f: FreteSchema, newId: string, now: int)
    requires StoreInvariant(mem)
    requires forall i :: 0 <= i < |mem| ==> Get(mem[i], "_id") != VId(newId)
    ensures StoreInvariant(CreateSpec(mem, f, newId, now).store)
  {
    var st := CreateSpec(mem, f, newId, now);
    if st.result.Ok? {
      var x := NewFrete(f, newId)["created_at" := VInt(now)];
      assert IsFrete(x);
      assert st.store == mem + [x];
    }
  }

  /** Create keeps business keys unique: it refuses an existing key. */
  lemma CreatePreservesUniqueKeys(mem: seq<Record>, f: FreteSchema, newId: string, now: int)
    requires UniqueKeys(mem)
    ensures UniqueKeys(CreateSpec(mem, f, newId, now).store)
  {
    var st := CreateSpec(mem, f, newId, now);
    if st.result.Ok? {
      var x := NewFrete(f, newId)["created_at" := VInt(now)];
      var m := mem + [x];
      assert st.store == m;
      forall i, j | 0 <= i < j < |m|
        ensures Get(m[i], "seller_id") != Get(m[j], "seller_id") || Get(m[i], "sku") != Get(m[j], "sku")
      {
        if j == |mem| {
          assert !KeyMatch(mem[i], f.sellerId, f.sku);
        } else {
          assert m[i] == mem[i] && m[j] == mem[j];
        }
      }
    }
  }

  /** PATCH keeps the invariant: fields stay well typed, a written fee is
      non-negative, and the id is kept. */
  lemma UpdatePreservesInvariant(mem: seq<Record>, sellerId: string, sku: string, u: FreteUpdate, now: int)
    requires StoreInvariant(mem)
    ensures StoreInvariant(UpdateValueSpec(mem, sellerId, sku, u, now).store)
  {
    var st := UpdateValueSpec(mem, sellerId, sku, u, now);
    if st.result.Ok? {
      var i := KeyIndex(mem, sellerId, sku);
      UpdateWritesFound(mem, sellerId, sku, u, now);
      assert ValidateFretesPositivos(u.valor).Pass?;
      assert IsFrete(mem[i]);
      PatchedKeepsFrete(mem[i], u, now);
      StoreInvariantAfterWrite(mem, i, Patched(mem[i], u)["updated_at" := VInt(now)]);
    }
  }

  lemma PatchedKeepsFrete(r: Record, u: FreteUpdate, now: int)
    requires IsFrete(r) && (u.valor.None? || u.valor.value >= 0)
    ensures var doc := Patched(r, u)["updated_at" := VInt(now)];
            IsFrete(doc) && Get(doc, "_id") == Get(r, "_id")
  {
    PatchedSpec(r, u);
  }

  /** PUT keeps the invariant. */
  lemma ReplacePreservesInvariant(mem: seq<Record>, sellerId: string, sku: string, f: FreteReplace, now: int)
    requires StoreInvariant(mem)
    ensures StoreInvariant(ReplaceSpec(mem, sellerId, sku, f, now).store)
  {
    var st := ReplaceSpec(mem, sellerId, sku, f, now);
    if st.result.Ok? {
      var i := KeyIndex(mem, sellerId, sku);
      ReplaceWritesFound(mem, sellerId, sku, f, now);
      var doc := Replaced(mem[i], f)["updated_at" := VInt(now)];
      assert IsFrete(mem[i]);
      assert IsFrete(doc);
      StoreInvariantAfterWrite(mem, i, doc);
    }
  }

  lemma StoreInvariantAfterWrite(mem: seq<Record>, i: nat, doc: Record)
    requires StoreInvariant(mem) && i < |mem|
    requires IsFrete(doc) && Get(doc, "_id") == Get(mem[i], "_id")
    ensures StoreInvariant(mem[i := doc])
  {
    var m := mem[i := doc];
    forall p, q | 0 <= p < q < |m|
      ensures Get(m[p], "_id") != Get(m[q], "_id")
    {
      assert Get(m[p], "_id") == Get(mem[p], "_id");
      assert Get(m[q], "_id") == Get(mem[q], "_id");
    }
  }

  /** Delete keeps the invariant and unique business keys. */
  lemma DeletePreservesInvariant(mem: seq<Record>, sellerId: string, sku: string)
    ensures StoreInvariant(mem) ==> StoreInvariant(DeleteSpec(mem, sellerId, sku).store)
    ensures UniqueKeys(mem) ==> UniqueKeys(DeleteSpec(mem, sellerId, sku).store)
  {
    var st := DeleteSpec(mem, sellerId, sku);
    if st.result.Ok? {
      var i := KeyIndex(mem, sellerId, sku);
      assert st.store == mem[..i] + mem[i + 1..];
      if StoreInvariant(mem) {
        RemoveAtKeepsInvariant(mem, i);
      }
      if UniqueKeys(mem) {
        RemoveAtKeepsUniqueKeys(mem, i);
      }
    }
  }

  lemma RemoveAtIndex(mem: seq<Record>, i: nat, p: nat)
    requires i < |mem| && p < |mem| - 1
    ensures (mem[..i] + mem[i + 1..])[p] == mem[if p < i then p else p + 1]
  {
  }

  lemma RemoveAtKeepsInvariant(mem: seq<Record>, i: nat)
    requires i < |mem| && StoreInvariant(mem)
    ensures StoreInvariant(mem[..i] + mem[i + 1..])
  {
    var r := mem[..i] + mem[i + 1..];
    forall p | 0 <= p < |r|
      ensures r[p] == mem[if p < i then p else p + 1]
    {
      RemoveAtIndex(mem, i, p);
    }
  }

  lemma RemoveAtKeepsUniqueKeys(mem: seq<Record>, i: nat)
    requires i < |mem| && UniqueKeys(mem)
    ensures UniqueKeys(mem[..i] + mem[i + 1..])
  {
    var r := mem[..i] + mem[i + 1..];
    forall p | 0 <= p < |r|
      ensures r[p] == mem[if p < i then p else p + 1]
    {
      RemoveAtIndex(mem, i, p);
    }
  }
}
