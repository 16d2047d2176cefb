/** The generic in-memory repository: an ordered list of records that
    `create` appends to, `update` merges into and `delete_by_id` filters,
    and that `find` reads through an equality filter, a multi-key stable
    sort and a page slice. */
module MemoryRepository {
  import opened Text
  import opened Records
  import opened Sorting

  /** The items of a filter dict, in order. A `None` filters dict is the
      empty sequence. */
  type Filters = seq<(string, Value)>

  /** The items of a sort dict: field name and direction (`-1` descending). */
  type SortSpec = seq<(string, int)>

  /** What `update` is handed: a model, dumped without its `identity`
      field, or anything else, copied with `dict(entity)`. */
  datatype Entity = Model(dump: Record) | Plain(fields: Record)

  function Fields(e: Entity): Record {
    match e
    case Model(d) => d - {"identity"}
    case Plain(d) => d
  }

  // ---------------------------------------------------------------------
  // Filtering.

  /** Every filter entry with a non-None value equals the record's field. */
  predicate Accepts(r: Record, filters: Filters) {
    forall i :: 0 <= i < |filters| ==> filters[i].1 == VNone || Get(r, filters[i].0) == filters[i].1
  }

  /** `[item for item in mem if _can_filter(item, filters)]`. */
  function FilterBy(mem: seq<Record>, filters: Filters): seq<Record> {
    if mem == [] then []
    else (if Accepts(mem[0], filters) then [mem[0]] else []) + FilterBy(mem[1..], filters)
  }

  lemma FilterByCons(h: Record, tail: seq<Record>, filters: Filters)
    ensures FilterBy([h] + tail, filters)
            == (if Accepts(h, filters) then [h] else []) + FilterBy(tail, filters)
  {
    assert ([h] + tail)[0] == h && ([h] + tail)[1..] == tail;
  }

  lemma FilterByConsIn(h: Record, tail: seq<Record>, filters: Filters)
    requires Accepts(h, filters)
    ensures FilterBy([h] + tail, filters) == [h] + FilterBy(tail, filters)
  {
    assert ([h] + tail)[0] == h && ([h] + tail)[1..] == tail;
  }

  lemma FilterByConsOut(h: Record, tail: seq<Record>, filters: Filters)
    requires !Accepts(h, filters)
    ensures FilterBy([h] + tail, filters) == FilterBy(tail, filters)
  {
    assert ([h] + tail)[0] == h && ([h] + tail)[1..] == tail;
  }

  /** Putting the same head in front of two lists keeps an equation
      between their filtered lists. */
  lemma FilterByPast(h: Record, tail: seq<Record>, longer: seq<Record>, t: seq<Record>, filters: Filters)
    requires FilterBy(longer, filters) == FilterBy(tail, filters) + t
    ensures FilterBy([h] + longer, filters) == FilterBy([h] + tail, filters) + t
  {
    if Accepts(h, filters) {
      FilterByPastIn(h, tail, longer, t, filters);
    } else {
      FilterByConsOut(h, longer, filters);
      FilterByConsOut(h, tail, filters);
    }
  }

  lemma FilterByPastIn(h: Record, tail: seq<Record>, longer: seq<Record>, t: seq<Record>, filters: Filters)
    requires Accepts(h, filters)
    requires FilterBy(longer, filters) == FilterBy(tail, filters) + t
    ensures FilterBy([h] + longer, filters) == FilterBy([h] + tail, filters) + t
  {
    FilterByConsIn(h, longer, filters);
    FilterByConsIn(h, tail, filters);
    ConsAssoc(h, FilterBy(tail, filters), t);
  }

  lemma {:induction false} FilterByAppend(mem: seq<Record>, x: Record, filters: Filters)
    ensures FilterBy(mem + [x], filters) == FilterBy(mem, filters) + (if Accepts(x, filters) then [x] else [])
  {
    if mem == [] {
      FilterByCons(x, [], filters);
      assert mem + [x] == [x] + [];
    } else {
      var rest := mem[1..];
      FilterByAppend(rest, x, filters);
      FilterByPast(mem[0], rest, rest + [x], if Accepts(x, filters) then [x] else [], filters);
      assert [mem[0]] + rest == mem;
      assert [mem[0]] + (rest + [x]) == mem + [x];
    }
  }

  /** The filtered list keeps exactly the accepted records, in memory order. */
  lemma FilterBySpec(mem: seq<Record>, filters: Filters)
    ensures IsSubseq(FilterBy(mem, filters), mem)
    ensures forall e :: e in FilterBy(mem, filters) <==> e in mem && Accepts(e, filters)
    ensures forall e :: multiset(FilterBy(mem, filters))[e] == if Accepts(e, filters) then multiset(mem)[e] else 0
  {
    FilterBySubseq(mem, filters);
    FilterByMembers(mem, filters);
    FilterByCounts(mem, filters);
  }

  /** Every accepted record is kept as many times as memory holds it. */
  lemma {:induction false} FilterByCounts(mem: seq<Record>, filters: Filters)
    ensures forall e :: multiset(FilterBy(mem, filters))[e] == if Accepts(e, filters) then multiset(mem)[e] else 0
  {
    if mem != [] {
      var h := mem[0];
      var t := mem[1..];
      FilterByCounts(t, filters);
      assert mem == [h] + t;
      if Accepts(h, filters) {
        FilterByConsIn(h, t, filters);
      } else {
        FilterByConsOut(h, t, filters);
      }
    }
  }

  lemma {:induction false} FilterBySubseq(mem: seq<Record>, filters: Filters)
    ensures IsSubseq(FilterBy(mem, filters), mem)
  {
    if mem != [] {
      var t := FilterBy(mem[1..], filters);
      FilterBySubseq(mem[1..], filters);
      if Accepts(mem[0], filters) {
        var f := [mem[0]] + t;
        assert FilterBy(mem, filters) == f;
        assert f != [] && f[0] == mem[0] && f[1..] == t;
      } else {
        assert FilterBy(mem, filters) == t;
      }
    }
  }

  lemma {:induction false} FilterByMembers(mem: seq<Record>, filters: Filters)
    ensures forall e :: e in FilterBy(mem, filters) <==> e in mem && Accepts(e, filters)
  {
    if mem != [] {
      FilterByMembers(mem[1..], filters);
      assert mem == [mem[0]] + mem[1..];
    }
  }

  /** With no filter entry, or only `None`-valued ones, every record passes. */
  lemma {:induction false} FilterByNoneKeepsAll(mem: seq<Record>, filters: Filters)
    requires forall i :: 0 <= i < |filters| ==> filters[i].1 == VNone
    ensures FilterBy(mem, filters) == mem
  {
    if mem != [] {
      FilterByNoneKeepsAll(mem[1..], filters);
      assert mem == [mem[0]] + mem[1..];
    }
  }

  // ---------------------------------------------------------------------
  // Cleaning the sort dict: `{k.strip(): v for k, v in sort.items()}`.

  /** The sort items with their names stripped. */
  function Stripped(sort: SortSpec): (r: SortSpec)
    ensures |r| == |sort|
    ensures forall i :: 0 <= i < |sort| ==> r[i] == (Strip(sort[i].0), sort[i].1)
  {
    seq(|sort|, i requires 0 <= i < |sort| => (Strip(sort[i].0), sort[i].1))
  }

  /** `d[k] = v` on the items of a dict: a present key keeps its place and
      takes the new value; a new key goes last. */
  function Assign(d: SortSpec, k: string, v: int): (r: SortSpec)
    ensures |d| <= |r| <= |d| + 1
  {
    if d == [] then [(k, v)]
    else if d[0].0 == k then [(k, v)] + d[1..]
    else [d[0]] + Assign(d[1..], k, v)
  }

  /** The items of the dict built by assigning the items of `d` in order. */
  function Dedup(d: SortSpec): SortSpec {
    if d == [] then [] else Assign(Dedup(d[..|d| - 1]), d[|d| - 1].0, d[|d| - 1].1)
  }

  /** The cleaned sort dict. */
  function CleanSort(sort: SortSpec): SortSpec {
    Dedup(Stripped(sort))
  }

  /** The value the LAST entry of `d` named `k` gives, if there is one. */
  function LastValue(d: SortSpec, k: string): Option<int> {
    if d == [] then None
    else if d[|d| - 1].0 == k then Some(d[|d| - 1].1)
    else LastValue(d[..|d| - 1], k)
  }

  /** The position of the FIRST entry of `d` named `k` (`|d|` when there is none). */
  function FirstPos(d: SortSpec, k: string): (p: nat)
    ensures p <= |d|
    ensures p < |d| ==> d[p].0 == k
    ensures forall i :: 0 <= i < p ==> d[i].0 != k
  {
    if d == [] then 0
    else if d[0].0 == k then 0
    else 1 + FirstPos(d[1..], k)
  }

  predicate NameIn(d: SortSpec, k: string) {
    exists i :: 0 <= i < |d| && d[i].0 == k
  }

  predicate DistinctNames(d: SortSpec) {
    forall i, j :: 0 <= i < j < |d| ==> d[i].0 != d[j].0
  }

  lemma {:induction false} AssignIndex(d: SortSpec, k: string, v: int)
    requires DistinctNames(d)
    ensures |Assign(d, k, v)| == if NameIn(d, k) then |d| else |d| + 1
    ensures forall i :: 0 <= i < |d| ==> Assign(d, k, v)[i] == if d[i].0 == k then (k, v) else d[i]
    ensures !NameIn(d, k) ==> Assign(d, k, v)[|d|] == (k, v)
  {
    if d != [] {
      var r := Assign(d, k, v);
      if d[0].0 == k {
        assert NameIn(d, k);
      } else {
        var t := d[1..];
        AssignIndex(t, k, v);
        assert NameIn(d, k) <==> NameIn(t, k) by {
          if NameIn(t, k) {
            var i :| 0 <= i < |t| && t[i].0 == k;
            assert d[i + 1] == t[i];
          }
          if NameIn(d, k) {
            var i :| 0 <= i < |d| && d[i].0 == k;
            assert t[i - 1] == d[i];
          }
        }
        forall i | 0 <= i < |d|
          ensures r[i] == if d[i].0 == k then (k, v) else d[i]
        {
          if i > 0 {
            assert t[i - 1] == d[i];
          }
        }
      }
    }
  }

  /** Appending an entry does not move the first occurrence of a name that
      already occurs. */
  lemma {:induction false} FirstPosExtend(d: SortSpec, e: (string, int), k: string)
    ensures FirstPos(d, k) < |d| ==> FirstPos(d + [e], k) == FirstPos(d, k)
    ensures FirstPos(d, k) == |d| ==> FirstPos(d + [e], k) >= |d|
  {
    if d != [] {
      FirstPosExtend(d[1..], e, k);
      assert (d + [e])[1..] == d[1..] + [e];
    }
  }

  lemma {:induction false} LastValueNoneFirstPos(d: SortSpec, k: string)
    requires LastValue(d, k) == None
    ensures FirstPos(d, k) == |d|
    decreases |d|
  {
    if d != [] {
      var init := d[..|d| - 1];
      LastValueNoneFirstPos(init, k);
      FirstPosExtend(init, d[|d| - 1], k);
      assert init + [d[|d| - 1]] == d;
    }
  }

  lemma LastValueAppend(d: SortSpec, e: (string, int), k: string)
    ensures LastValue(d + [e], k) == if e.0 == k then Some(e.1) else LastValue(d, k)
  {
    assert (d + [e])[..|d|] == d;
  }

  /** What the dict built from `init` promises, stated of `c`. */
  ghost predicate DedupFacts(init: SortSpec, c: SortSpec) {
    && DistinctNames(c)
    && (forall i :: 0 <= i < |c| ==> LastValue(init, c[i].0) == Some(c[i].1) && FirstPos(init, c[i].0) < |init|)
    && (forall name :: LastValue(init, name).Some? ==> NameIn(c, name))
    && (forall i, j :: 0 <= i < j < |c| ==> FirstPos(init, c[i].0) < FirstPos(init, c[j].0))
  }

  /** How `c` arises from `c0` when `k := v` is assigned: in place when the
      name is there, appended when it is not. */
  predicate AssignedFrom(c0: SortSpec, k: string, v: int, c: SortSpec) {
    if NameIn(c0, k) then
      && |c| == |c0|
      && forall i :: 0 <= i < |c0| ==> c[i] == if c0[i].0 == k then (k, v) else c0[i]
    else
      && |c| == |c0| + 1 && c[|c0|] == (k, v)
      && forall i :: 0 <= i < |c0| ==> c[i] == c0[i]
  }

  lemma StepDistinct(c0: SortSpec, k: string, v: int, c: SortSpec)
    requires DistinctNames(c0) && AssignedFrom(c0, k, v, c)
    ensures DistinctNames(c)
  {
    forall i, j | 0 <= i < j < |c|
      ensures c[i].0 != c[j].0
    {
      if j < |c0| {
        assert c[i].0 == c0[i].0 && c[j].0 == c0[j].0;
      } else {
        assert c[i] == c0[i];
      }
    }
  }

  /** Assigning a name the dict has keeps every entry's value the last one
      given and its name occurring. */
  lemma StepValuesKnown(init: SortSpec, k: string, v: int, c0: SortSpec, c: SortSpec)
    requires forall i :: 0 <= i < |c0| ==> LastValue(init, c0[i].0) == Some(c0[i].1) && FirstPos(init, c0[i].0) < |init|
    requires |c| == |c0|
    requires forall i :: 0 <= i < |c0| ==> c[i] == if c0[i].0 == k then (k, v) else c0[i]
    ensures forall i :: 0 <= i < |c| ==>
              LastValue(init + [(k, v)], c[i].0) == Some(c[i].1) && FirstPos(init + [(k, v)], c[i].0) < |init| + 1
  {
    AppendGivesEntry(init, k, v);
    forall i | 0 <= i < |c|
      ensures LastValue(init + [(k, v)], c[i].0) == Some(c[i].1) && FirstPos(init + [(k, v)], c[i].0) < |init| + 1
    {
      if c0[i].0 != k {
        AppendKeepsEntry(init, (k, v), c0[i].0, c0[i].1);
      }
    }
  }

  /** Assigning a new name does the same, the new entry included. */
  lemma StepValuesNew(init: SortSpec, k: string, v: int, c0: SortSpec, c: SortSpec)
    requires forall i :: 0 <= i < |c0| ==> LastValue(init, c0[i].0) == Some(c0[i].1) && FirstPos(init, c0[i].0) < |init|
    requires forall i :: 0 <= i < |c0| ==> c0[i].0 != k
    requires |c| == |c0| + 1 && c[|c0|] == (k, v)
    requires forall i :: 0 <= i < |c0| ==> c[i] == c0[i]
    ensures forall i :: 0 <= i < |c| ==>
              LastValue(init + [(k, v)], c[i].0) == Some(c[i].1) && FirstPos(init + [(k, v)], c[i].0) < |init| + 1
  {
    forall i | 0 <= i < |c|
      ensures LastValue(init + [(k, v)], c[i].0) == Some(c[i].1) && FirstPos(init + [(k, v)], c[i].0) < |init| + 1
    {
      if i < |c0| {
        AppendKeepsEntry(init, (k, v), c0[i].0, c0[i].1);
      } else {
        assert i == |c0|;
        NewEntry(init, k, v, c[i]);
      }
    }
  }

  lemma NewEntry(init: SortSpec, k: string, v: int, e: (string, int))
    requires e == (k, v)
    ensures LastValue(init + [(k, v)], e.0) == Some(e.1) && FirstPos(init + [(k, v)], e.0) < |init| + 1
  {
    AppendGivesEntry(init, k, v);
  }

  lemma AppendKeepsEntry(init: SortSpec, e: (string, int), name: string, val: int)
    requires name != e.0 && LastValue(init, name) == Some(val) && FirstPos(init, name) < |init|
    ensures LastValue(init + [e], name) == Some(val) && FirstPos(init + [e], name) < |init| + 1
  {
    LastValueAppend(init, e, name);
    FirstPosExtend(init, e, name);
  }

  lemma AppendGivesEntry(init: SortSpec, k: string, v: int)
    ensures LastValue(init + [(k, v)], k) == Some(v) && FirstPos(init + [(k, v)], k) < |init| + 1
  {
    LastValueAppend(init, (k, v), k);
    assert (init + [(k, v)])[|init|].0 == k;
  }

  lemma StepCovers(init: SortSpec, k: string, v: int, c0: SortSpec, c: SortSpec)
    requires forall name :: LastValue(init, name).Some? ==> NameIn(c0, name)
    requires AssignedFrom(c0, k, v, c)
    ensures forall name :: LastValue(init + [(k, v)], name).Some? ==> NameIn(c, name)
  {
    forall name | LastValue(init + [(k, v)], name).Some?
      ensures NameIn(c, name)
    {
      LastValueAppend(init, (k, v), name);
      if name == k && !NameIn(c0, k) {
        assert c[|c0|].0 == name;
      } else {
        var i :| 0 <= i < |c0| && c0[i].0 == name;
        assert c[i].0 == name;
      }
    }
  }

  lemma StepOrder(init: SortSpec, k: string, v: int, c0: SortSpec, c: SortSpec)
    requires forall i :: 0 <= i < |c0| ==> FirstPos(init, c0[i].0) < |init|
    requires forall i, j :: 0 <= i < j < |c0| ==> FirstPos(init, c0[i].0) < FirstPos(init, c0[j].0)
    requires |c0| <= |c| <= |c0| + 1
    requires forall i :: 0 <= i < |c0| ==> c[i].0 == c0[i].0
    requires |c| > |c0| ==> c[|c0|].0 == k && LastValue(init, k) == None
    ensures forall i, j :: 0 <= i < j < |c| ==> FirstPos(init + [(k, v)], c[i].0) < FirstPos(init + [(k, v)], c[j].0)
  {
    forall i, j | 0 <= i < j < |c|
      ensures FirstPos(init + [(k, v)], c[i].0) < FirstPos(init + [(k, v)], c[j].0)
    {
      FirstPosExtend(init, (k, v), c[i].0);
      FirstPosExtend(init, (k, v), c[j].0);
      assert c[i].0 == c0[i].0;
      if j < |c0| {
        assert c[j].0 == c0[j].0;
      } else {
        LastValueNoneFirstPos(init, k);
      }
    }
  }

  /** Assigning `k := v` to the dict built from `init` gives the dict built
      from `init + [(k, v)]`. */
  lemma DedupStep(init: SortSpec, k: string, v: int, c0: SortSpec, c: SortSpec)
    requires DedupFacts(init, c0) && AssignedFrom(c0, k, v, c)
    ensures DedupFacts(init + [(k, v)], c)
  {
    if !NameIn(c0, k) {
      assert LastValue(init, k) == None;
    }
    StepDistinct(c0, k, v, c);
    if NameIn(c0, k) {
      StepValuesKnown(init, k, v, c0, c);
    } else {
      StepValuesNew(init, k, v, c0, c);
    }
    StepCovers(init, k, v, c0, c);
    assert forall i :: 0 <= i < |c0| ==> c[i].0 == c0[i].0;
    StepOrder(init, k, v, c0, c);
  }

  /** The dict built from `d` has one entry per name of `d`: that name with
      the value of its LAST occurrence, placed in the order of FIRST
      occurrences. */
  lemma {:induction false} DedupSpec(d: SortSpec)
    ensures DedupFacts(d, Dedup(d))
    decreases |d|
  {
    if d != [] {
      var init := d[..|d| - 1];
      var k := d[|d| - 1].0;
      var v := d[|d| - 1].1;
      var c0 := Dedup(init);
      DedupSpec(init);
      AssignIndex(c0, k, v);
      assert d == init + [(k, v)];
      DedupStep(init, k, v, c0, Assign(c0, k, v));
    }
  }

  /** The cleaned sort dict has one entry per stripped name: that name with
      the value of its LAST occurrence, in the order of FIRST occurrences. */
  lemma CleanSortSpec(sort: SortSpec)
    ensures var d := Stripped(sort);
            var c := CleanSort(sort);
            && DistinctNames(c)
            && (forall i :: 0 <= i < |c| ==> LastValue(d, c[i].0) == Some(c[i].1))
            && (forall i :: 0 <= i < |sort| ==> NameIn(c, Strip(sort[i].0)))
            && (forall i, j :: 0 <= i < j < |c| ==> FirstPos(d, c[i].0) < FirstPos(d, c[j].0))
  {
    var d := Stripped(sort);
    DedupSpec(d);
    forall i | 0 <= i < |sort|
      ensures NameIn(CleanSort(sort), Strip(sort[i].0))
    {
      LastValueOccurs(d, i);
    }
  }

  /** A name that occurs has a last value. */
  lemma {:induction false} LastValueOccurs(d: SortSpec, i: nat)
    requires i < |d|
    ensures LastValue(d, d[i].0).Some?
    decreases |d|
  {
    if i < |d| - 1 && d[|d| - 1].0 != d[i].0 {
      LastValueOccurs(d[..|d| - 1], i);
    }
  }

  /** The sort keys the loop over the cleaned dict uses: `descending` is
      `order == -1`. */
  function SortKeys(c: SortSpec): (keys: seq<SortKey>)
    ensures |keys| == |c|
    ensures forall i :: 0 <= i < |c| ==> keys[i] == SortKey(c[i].0, c[i].1 == -1)
  {
    if c == [] then [] else [SortKey(c[0].0, c[0].1 == -1)] + SortKeys(c[1..])
  }

  // ---------------------------------------------------------------------
  // Paging.

  /** A Python slice bound resolved against a length `n`. */
  function PyIndex(i: int, n: nat): (r: nat)
    ensures r <= n
  {
    if i < 0 then (if i + n < 0 then 0 else i + n) else if i > n then n else i
  }

  /** `s[lo:hi]`. */
  function PySlice(s: seq<Record>, lo: int, hi: int): seq<Record> {
    var a := PyIndex(lo, |s|);
    var b := PyIndex(hi, |s|);
    if a < b then s[a..b] else []
  }

  /** With non-negative `offset` and `limit`, `s[offset:offset + limit]` is
      the run of at most `limit` records of `s` starting at `offset`. */
  lemma PageSpec(s: seq<Record>, offset: int, limit: int)
    requires offset >= 0 && limit >= 0
    ensures var r := PySlice(s, offset, offset + limit);
            && |r| <= limit
            && (|r| == limit || offset + |r| >= |s|)
            && (forall i :: 0 <= i < |r| ==> offset + i < |s| && r[i] == s[offset + i])
            && IsSubseq(r, s)
  {
    var a := PyIndex(offset, |s|);
    var b := PyIndex(offset + limit, |s|);
    if a < b {
      SliceIsSubseq(s, a, b);
    }
  }

  // ---------------------------------------------------------------------
  // `find`.

  /** What `find` returns: the accepted records, kept only if they have
      every cleaned sort key and then ordered by those keys, paged. */
  function FindSpec(mem: seq<Record>, filters: Filters, limit: int, offset: int, sort: SortSpec): seq<Record> {
    PySlice(Ordered(FilterBy(mem, filters), SortKeys(CleanSort(sort))), offset, offset + limit)
  }

  /** Without a sort dict, `find` pages the accepted records in memory order. */
  lemma FindWithoutSort(mem: seq<Record>, filters: Filters, limit: int, offset: int)
    requires offset >= 0 && limit >= 0
    ensures var r := FindSpec(mem, filters, limit, offset, []);
            && IsSubseq(r, mem)
            && |r| <= limit
            && (|r| == limit || offset + |r| >= |FilterBy(mem, filters)|)
            && (forall e :: e in r ==> Accepts(e, filters))
            && (forall i :: 0 <= i < |r| ==>
                  offset + i < |FilterBy(mem, filters)| && r[i] == FilterBy(mem, filters)[offset + i])
  {
    var f := FilterBy(mem, filters);
    OrderedNoKeys(f);
    assert CleanSort([]) == [];
    FilterBySpec(mem, filters);
    PageSpec(f, offset, limit);
    var r := PySlice(f, offset, offset + limit);
    SubseqTransitive(r, f, mem);
    SubseqMembers(r, f);
  }

  /** With a sort dict, every record `find` returns is an accepted memory
      record that has every stripped sort key, and the page is ordered
      with the first key primary (descending exactly for `-1`). */
  lemma FindWithSort(mem: seq<Record>, filters: Filters, limit: int, offset: int, sort: SortSpec)
    ensures var keys := SortKeys(CleanSort(sort));
            var r := FindSpec(mem, filters, limit, offset, sort);
            && Sorted(r, keys)
            && (forall e :: e in r ==> e in mem && Accepts(e, filters) && AllPresent(e, keys))
            && (forall i, j :: 0 <= i < j < |r| && |keys| > 0 ==> !KeyLess(r[j], r[i], keys[0]))
  {
    var keys := SortKeys(CleanSort(sort));
    var f := FilterBy(mem, filters);
    var o := Ordered(f, keys);
    OrderedSpec(f, keys);
    FilterBySpec(mem, filters);
    var a := PyIndex(offset, |o|);
    var b := PyIndex(offset + limit, |o|);
    var r := PySlice(o, offset, offset + limit);
    if a < b {
      SortedSlice(o, a, b, keys);
      SliceIsSubseq(o, a, b);
      SubseqMembers(r, o);
    }
    forall i, j | 0 <= i < j < |r| && |keys| > 0
      ensures !KeyLess(r[j], r[i], keys[0])
    {
      SortedFirstKey(r, keys, i, j);
    }
  }

  /** A page that covers every record is the whole stable order: the
      records that pass the filter and have every sort key, each tie
      class in memory order. */
  lemma FindWholeIsStable(mem: seq<Record>, filters: Filters, limit: int, sort: SortSpec)
    requires limit >= |mem|
    ensures var keys := SortKeys(CleanSort(sort));
            var r := FindSpec(mem, filters, limit, 0, sort);
            && multiset(r) == multiset(PresentAll(FilterBy(mem, filters), keys))
            && forall x :: ClassOf(r, x, keys) == ClassOf(PresentAll(FilterBy(mem, filters), keys), x, keys)
  {
    var keys := SortKeys(CleanSort(sort));
    var o := Ordered(FilterBy(mem, filters), keys);
    OrderedLength(mem, filters, keys);
    WholePage(o, limit);
    OrderedSpec(FilterBy(mem, filters), keys);
  }

  /** The ordered records are no more than the records in memory. */
  lemma OrderedLength(mem: seq<Record>, filters: Filters, keys: seq<SortKey>)
    ensures |Ordered(FilterBy(mem, filters), keys)| <= |mem|
  {
    var f := FilterBy(mem, filters);
    var p := PresentAll(f, keys);
    var o := Ordered(f, keys);
    FilterBySpec(mem, filters);
    SubseqLength(f, mem);
    PresentAllSpec(f, keys);
    SubseqLength(p, f);
    SortByPermutes(p, keys);
    assert |multiset(o)| == |multiset(p)|;
  }

  /** A slice from 0 at least as long as the list is the whole list. */
  lemma WholePage(s: seq<Record>, limit: int)
    requires limit >= |s|
    ensures PySlice(s, 0, 0 + limit) == s
  {
    assert s[0..|s|] == s;
  }

  // ---------------------------------------------------------------------
  // `update`.

  /** The index of the first record whose `str(_id)` is `str(id)`, or
      `|mem|` when there is none. */
  function FirstIdIndex(mem: seq<Record>, id: Value): (i: nat)
    ensures i <= |mem|
    ensures i < |mem| ==> Str(Get(mem[i], "_id")) == Str(id)
    ensures forall j :: 0 <= j < |mem| && Str(Get(mem[j], "_id")) == Str(id) ==> i <= j
  {
    if mem == [] then 0
    else if Str(Get(mem[0], "_id")) == Str(id) then 0
    else 1 + FirstIdIndex(mem[1..], id)
  }

  /** `doc.update(entity_dict)` with `entity_dict["updated_at"]` stamped. */
  function UpdatedDoc(doc: Record, entity: Entity, now: int): (r: Record)
    ensures forall k :: k in r <==> k in doc || k in Fields(entity) || k == "updated_at"
    ensures r["updated_at"] == VInt(now)
    ensures forall k :: k in Fields(entity) && k != "updated_at" ==> r[k] == Fields(entity)[k]
    ensures forall k :: k in doc && k !in Fields(entity) && k != "updated_at" ==> r[k] == doc[k]
  {
    doc + Fields(entity)["updated_at" := VInt(now)]
  }

  // ---------------------------------------------------------------------
  // `delete_by_id`.

  predicate HasKey(mem: seq<Record>, key: string, id: Value) {
    exists r :: r in mem && Get(r, key) == id
  }

  /** `[doc for doc in mem if doc.get(key) != id]`. */
  function RemoveKeyed(mem: seq<Record>, key: string, id: Value): seq<Record> {
    if mem == [] then []
    else (if Get(mem[0], key) != id then [mem[0]] else []) + RemoveKeyed(mem[1..], key, id)
  }

  /** Removal keeps, in order, exactly the records without that key. */
  lemma RemoveKeyedSpec(mem: seq<Record>, key: string, id: Value)
    ensures IsSubseq(RemoveKeyed(mem, key, id), mem)
    ensures forall e :: e in RemoveKeyed(mem, key, id) <==> e in mem && Get(e, key) != id
    ensures !HasKey(RemoveKeyed(mem, key, id), key, id)
    ensures forall e :: multiset(RemoveKeyed(mem, key, id))[e] == if Get(e, key) == id then 0 else multiset(mem)[e]
  {
    RemoveKeyedSubseq(mem, key, id);
    RemoveKeyedMembers(mem, key, id);
    RemoveKeyedCounts(mem, key, id);
  }

  lemma {:induction false} RemoveKeyedSubseq(mem: seq<Record>, key: string, id: Value)
    ensures IsSubseq(RemoveKeyed(mem, key, id), mem)
  {
    if mem != [] {
      var t := RemoveKeyed(mem[1..], key, id);
      RemoveKeyedSubseq(mem[1..], key, id);
      if Get(mem[0], key) != id {
        var f := [mem[0]] + t;
        assert RemoveKeyed(mem, key, id) == f;
        assert f != [] && f[0] == mem[0] && f[1..] == t;
      } else {
        assert RemoveKeyed(mem, key, id) == t;
      }
    }
  }

  lemma {:induction false} RemoveKeyedMembers(mem: seq<Record>, key: string, id: Value)
    ensures forall e :: e in RemoveKeyed(mem, key, id) <==> e in mem && Get(e, key) != id
    ensures !HasKey(RemoveKeyed(mem, key, id), key, id)
  {
    if mem != [] {
      RemoveKeyedMembers(mem[1..], key, id);
      assert mem == [mem[0]] + mem[1..];
    }
  }

  /** Every record without the key is kept as many times as memory holds
      it; none with the key is. */
  lemma {:induction false} RemoveKeyedCounts(mem: seq<Record>, key: string, id: Value)
    ensures forall e :: multiset(RemoveKeyed(mem, key, id))[e] == if Get(e, key) == id then 0 else multiset(mem)[e]
  {
    if mem != [] {
      var h := mem[0];
      var t := mem[1..];
      RemoveKeyedCounts(t, key, id);
      assert mem == [h] + t;
      if Get(h, key) != id {
        assert RemoveKeyed(mem, key, id) == [h] + RemoveKeyed(t, key, id);
      } else {
        assert RemoveKeyed(mem, key, id) == RemoveKeyed(t, key, id);
      }
    }
  }

  // ---------------------------------------------------------------------
  // The repository object.

  class AsyncMemoryRepository {
    /** The field `find_by_id` and `delete_by_id` look records up by. */
    const keyName: string
    /** The stored records, in insertion order. */
    var memory: seq<Record>

    constructor(keyName: string)
      ensures this.keyName == keyName && memory == []
    {
      this.keyName := keyName;
      memory := [];
    }

    /** Appends the entity's fields stamped with `created_at` and returns
        the entity. */
    method Create(entity: Record, now: int) returns (r: Record)
      modifies this
      ensures memory == old(memory) + [entity["created_at" := VInt(now)]]
      ensures r == entity
    {
      memory := memory + [entity["created_at" := VInt(now)]];
      r := entity;
    }

    /** The first record whose key field equals `id`, if any. */
    method FindById(id: Value) returns (r: Option<Record>)
      ensures r.None? <==> !HasKey(memory, keyName, id)
      ensures r.Some? ==> exists i :: 0 <= i < |memory| && memory[i] == r.value
                            && Get(memory[i], keyName) == id
                            && forall j :: 0 <= j < i ==> Get(memory[j], keyName) != id
    {
      var i := 0;
      while i < |memory|
        invariant 0 <= i <= |memory|
        invariant forall j :: 0 <= j < i ==> Get(memory[j], keyName) != id
      {
        if Get(memory[i], keyName) == id {
          return Some(memory[i]);
        }
        i := i + 1;
      }
      r := None;
    }

    /** `_can_filter`: stops at the first non-None filter value the record
        does not match. */
    static method CanFilter(data: Record, filters: Filters) returns (ok: bool)
      ensures ok == Accepts(data, filters)
    {
      var i := 0;
      while i < |filters|
        invariant 0 <= i <= |filters|
        invariant forall j :: 0 <= j < i ==> filters[j].1 == VNone || Get(data, filters[j].0) == filters[j].1
      {
        var (key, value) := filters[i];
        if value != VNone && Get(data, key) != value {
          return false;
        }
        i := i + 1;
      }
      ok := true;
    }

    /** Filters, then (for a non-empty sort dict) sorts key by key from the
        last cleaned key to the first, then pages. Memory is only read. */
    method Find(filters: Filters, limit: int, offset: int, sort: SortSpec) returns (r: seq<Record>)
      ensures r == FindSpec(memory, filters, limit, offset, sort)
    {
      var results: seq<Record> := [];
      var i := 0;
      while i < |memory|
        invariant 0 <= i <= |memory|
        invariant results == FilterBy(memory[..i], filters)
      {
        var ok := CanFilter(memory[i], filters);
        FilterByAppend(memory[..i], memory[i], filters);
        assert memory[..i + 1] == memory[..i] + [memory[i]];
        if ok {
          results := results + [memory[i]];
        }
        i := i + 1;
      }
      assert memory[..|memory|] == memory;
      var keys := SortKeys(CleanSort(sort));
      if |sort| > 0 {
        results := SortByKeys(results, keys);
      } else {
        assert keys == [];
        OrderedNoKeys(results);
      }
      r := PySlice(results, offset, offset + limit);
    }

    /** The loop over the cleaned sort keys from the last to the first:
        drop the records without the key, then sort stably by it. */
    static method SortByKeys(results: seq<Record>, keys: seq<SortKey>) returns (r: seq<Record>)
      ensures r == Ordered(results, keys)
    {
      r := results;
      OrderedNoKeys(results);
      var n := |keys|;
      while n > 0
        invariant 0 <= n <= |keys|
        invariant r == Ordered(results, keys[n..])
      {
        n := n - 1;
        var key := keys[n];
        r := Present(r, key.field);
        r := SortBy(r, [key]);
        OrderedStep(results, key, keys[n + 1..]);
        assert keys[n..] == [key] + keys[n + 1..];
      }
    }

    /** Merges `entity` (and `updated_at`) into the first record whose
        `str(_id)` is `str(entityId)` and returns that record; with no such
        record, returns None and changes nothing. */
    method Update(entityId: Value, entity: Entity, now: int) returns (r: Option<Record>)
      modifies this
      ensures var i := FirstIdIndex(old(memory), entityId);
              if i == |old(memory)| then r == None && memory == old(memory)
              else
                var doc := UpdatedDoc(old(memory)[i], entity, now);
                r == Some(doc) && memory == old(memory)[i := doc]
    {
      var fields := Fields(entity)["updated_at" := VInt(now)];
      var i := 0;
      while i < |memory|
        invariant 0 <= i <= |memory|
        invariant memory == old(memory)
        invariant forall j :: 0 <= j < i ==> Str(Get(memory[j], "_id")) != Str(entityId)
      {
        if Str(Get(memory[i], "_id")) == Str(entityId) {
          assert FirstIdIndex(memory, entityId) == i;
          ghost var doc := UpdatedDoc(memory[i], entity, now);
          assert memory[i] + fields == doc;
          memory := memory[i := memory[i] + fields];
          return Some(memory[i]);
        }
        i := i + 1;
      }
      r := None;
    }

    /** Fails with NotFound when no record has the key; otherwise removes
        every record that has it. */
    method DeleteById(id: Value) returns (o: Outcome)
      modifies this
      ensures !HasKey(old(memory), keyName, id) ==> o == Fail(NotFound) && memory == old(memory)
      ensures HasKey(old(memory), keyName, id) ==> o == Pass && memory == RemoveKeyed(old(memory), keyName, id)
    {
      var current := FindById(id);
      if current.None? {
        return Fail(NotFound);
      }
      memory := RemoveKeyed(memory, keyName, id);
      o := Pass;
    }
  }

  /** After a delete, nothing with the key is left and every other record
      remains in order. */
  lemma DeleteByIdLeavesOthers(mem: seq<Record>, key: string, id: Value)
    ensures var r := RemoveKeyed(mem, key, id);
            && !HasKey(r, key, id)
            && IsSubseq(r, mem)
            && (forall e :: e in mem && Get(e, key) != id ==> e in r)
            && forall e :: multiset(r)[e] == if Get(e, key) == id then 0 else multiset(mem)[e]
  {
    RemoveKeyedSpec(mem, key, id);
  }
}
