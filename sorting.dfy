/** Ordering records by a list of sort keys.

    Python's `sorted(rs, key=lambda r: r.get(k), reverse=d)` is stable: it
    orders by the key and keeps ties in input order (also when `reverse`
    is set). `SortBy` is that sort, written as an insertion sort over a
    lexicographic comparison. The lemmas show that a stable sort is fixed
    by two facts (it is sorted, and the records of each tie class keep
    their input order), and from that, that sorting once per key from the
    last key to the first gives the same list as one lexicographic sort. */
module Sorting {
  import opened Records

  /** One entry of a sort specification: the field, and whether the order
      on it is descending. */
  datatype SortKey = SortKey(field: string, descending: bool)

  /** `a` comes strictly before `b` on key `k`. */
  predicate KeyLess(a: Record, b: Record, k: SortKey) {
    if k.descending then ValueLess(Get(b, k.field), Get(a, k.field))
    else ValueLess(Get(a, k.field), Get(b, k.field))
  }

  /** `a` and `b` tie on every key. */
  predicate LexEq(a: Record, b: Record, keys: seq<SortKey>)
    decreases |keys|
  {
    |keys| == 0 || (Get(a, keys[0].field) == Get(b, keys[0].field) && LexEq(a, b, keys[1..]))
  }

  /** `a` comes strictly before `b`: the first key decides, later keys
      break ties of earlier ones. */
  predicate LexLess(a: Record, b: Record, keys: seq<SortKey>)
    decreases |keys|
  {
    && |keys| > 0
    && (|| KeyLess(a, b, keys[0])
        || (Get(a, keys[0].field) == Get(b, keys[0].field) && LexLess(a, b, keys[1..])))
  }

  /** No record comes strictly before an earlier one. */
  ghost predicate Sorted(s: seq<Record>, keys: seq<SortKey>) {
    forall i, j :: 0 <= i < j < |s| ==> !LexLess(s[j], s[i], keys)
  }

  /** `t` is `s` with some elements left out. */
  ghost predicate IsSubseq(t: seq<Record>, s: seq<Record>)
    decreases |s|
  {
    || t == []
    || (&& s != []
        && ((t[0] == s[0] && IsSubseq(t[1..], s[1..])) || IsSubseq(t, s[1..])))
  }

  // ---------------------------------------------------------------------
  // The comparison is a strict weak order whose ties are LexEq.

  lemma {:induction false} LexEqReflexive(a: Record, keys: seq<SortKey>)
    ensures LexEq(a, a, keys)
  {
    if |keys| > 0 {
      LexEqReflexive(a, keys[1..]);
    }
  }

  lemma {:induction false} LexEqSymmetric(a: Record, b: Record, keys: seq<SortKey>)
    requires LexEq(a, b, keys)
    ensures LexEq(b, a, keys)
  {
    if |keys| > 0 {
      LexEqSymmetric(a, b, keys[1..]);
    }
  }

  lemma {:induction false} LexEqTransitive(a: Record, b: Record, c: Record, keys: seq<SortKey>)
    requires LexEq(a, b, keys) && LexEq(b, c, keys)
    ensures LexEq(a, c, keys)
  {
    if |keys| > 0 {
      LexEqTransitive(a, b, c, keys[1..]);
    }
  }

  lemma {:induction false} LexLessIrreflexive(a: Record, keys: seq<SortKey>)
    ensures !LexLess(a, a, keys)
  {
    if |keys| > 0 {
      ValueLessIrreflexive(Get(a, keys[0].field));
      LexLessIrreflexive(a, keys[1..]);
    }
  }

  lemma {:induction false} LexLessTransitive(a: Record, b: Record, c: Record, keys: seq<SortKey>)
    requires LexLess(a, b, keys) && LexLess(b, c, keys)
    ensures LexLess(a, c, keys)
  {
    var f := keys[0].field;
    if KeyLess(a, b, keys[0]) && KeyLess(b, c, keys[0]) {
      if keys[0].descending {
        ValueLessTransitive(Get(c, f), Get(b, f), Get(a, f));
      } else {
        ValueLessTransitive(Get(a, f), Get(b, f), Get(c, f));
      }
    } else if !KeyLess(a, b, keys[0]) && !KeyLess(b, c, keys[0]) {
      LexLessTransitive(a, b, c, keys[1..]);
    }
  }

  lemma {:induction false} LexTotal(a: Record, b: Record, keys: seq<SortKey>)
    ensures LexLess(a, b, keys) || LexLess(b, a, keys) || LexEq(a, b, keys)
  {
    if |keys| > 0 {
      ValueLessTotal(Get(a, keys[0].field), Get(b, keys[0].field));
      LexTotal(a, b, keys[1..]);
    }
  }

  lemma {:induction false} LexEqNotLess(a: Record, b: Record, keys: seq<SortKey>)
    requires LexEq(a, b, keys)
    ensures !LexLess(a, b, keys)
  {
    if |keys| > 0 {
      ValueLessIrreflexive(Get(a, keys[0].field));
      LexEqNotLess(a, b, keys[1..]);
    }
  }

  lemma {:induction false} LexEqThenLess(a: Record, b: Record, c: Record, keys: seq<SortKey>)
    requires LexEq(a, b, keys)
    ensures LexLess(b, c, keys) ==> LexLess(a, c, keys)
  {
    if |keys| > 0 {
      LexEqThenLess(a, b, c, keys[1..]);
    }
  }

  lemma {:induction false} LexLessThenEq(a: Record, b: Record, c: Record, keys: seq<SortKey>)
    requires LexEq(b, c, keys)
    ensures LexLess(a, b, keys) ==> LexLess(a, c, keys)
  {
    if |keys| > 0 {
      LexLessThenEq(a, b, c, keys[1..]);
    }
  }

  /** Tying on `[k] + rest` is tying on `k` and on `rest`. */
  lemma LexEqCons(a: Record, b: Record, k: SortKey, rest: seq<SortKey>)
    ensures LexEq(a, b, [k] + rest) <==> LexEq(a, b, [k]) && LexEq(a, b, rest)
  {
    assert ([k] + rest)[1..] == rest;
    assert [k][1..] == [];
  }

  // ---------------------------------------------------------------------
  // Sorted sequences.

  lemma SortedSuffix(s: seq<Record>, n: nat, keys: seq<SortKey>)
    requires Sorted(s, keys) && n <= |s|
    ensures Sorted(s[n..], keys)
  {
    forall i, j | 0 <= i < j < |s| - n
      ensures !LexLess(s[n..][j], s[n..][i], keys)
    {
      assert s[n..][j] == s[n + j] && s[n..][i] == s[n + i];
    }
  }

  lemma SortedCons(a: Record, t: seq<Record>, keys: seq<SortKey>)
    requires Sorted(t, keys)
    requires forall e :: e in t ==> !LexLess(e, a, keys)
    ensures Sorted([a] + t, keys)
  {
    var s := [a] + t;
    forall i, j | 0 <= i < j < |s|
      ensures !LexLess(s[j], s[i], keys)
    {
      assert s[j] == t[j - 1];
      if i > 0 {
        assert s[i] == t[i - 1];
      }
    }
  }

  /** Slices of a sorted sequence are sorted. */
  lemma SortedSlice(s: seq<Record>, lo: nat, hi: nat, keys: seq<SortKey>)
    requires Sorted(s, keys) && lo <= hi <= |s|
    ensures Sorted(s[lo..hi], keys)
  {
    forall i, j | 0 <= i < j < hi - lo
      ensures !LexLess(s[lo..hi][j], s[lo..hi][i], keys)
    {
      assert s[lo..hi][j] == s[lo + j] && s[lo..hi][i] == s[lo + i];
    }
  }

  // ---------------------------------------------------------------------
  // Subsequences.

  lemma {:induction false} SubseqMembers(t: seq<Record>, s: seq<Record>)
    requires IsSubseq(t, s)
    ensures forall e :: e in t ==> e in s
    decreases |s|
  {
    if t != [] {
      if t[0] == s[0] && IsSubseq(t[1..], s[1..]) {
        SubseqMembers(t[1..], s[1..]);
        assert t == [t[0]] + t[1..];
      } else {
        SubseqMembers(t, s[1..]);
      }
    }
  }

  lemma {:induction false} SubseqLength(t: seq<Record>, s: seq<Record>)
    requires IsSubseq(t, s)
    ensures |t| <= |s|
    decreases |s|
  {
    if t != [] {
      if t[0] == s[0] && IsSubseq(t[1..], s[1..]) {
        SubseqLength(t[1..], s[1..]);
      } else {
        SubseqLength(t, s[1..]);
      }
    }
  }

  lemma {:induction false} SubseqReflexive(s: seq<Record>)
    ensures IsSubseq(s, s)
    decreases |s|
  {
    if s != [] {
      SubseqReflexive(s[1..]);
    }
  }

  lemma {:induction false} SubseqTransitive(a: seq<Record>, b: seq<Record>, c: seq<Record>)
    requires IsSubseq(a, b) && IsSubseq(b, c)
    ensures IsSubseq(a, c)
    decreases |c|
  {
    if a != [] {
      if b[0] == c[0] && IsSubseq(b[1..], c[1..]) {
        if a[0] == b[0] && IsSubseq(a[1..], b[1..]) {
          SubseqTransitive(a[1..], b[1..], c[1..]);
        } else {
          SubseqTransitive(a, b[1..], c[1..]);
        }
      } else {
        SubseqTransitive(a, b, c[1..]);
      }
    }
  }

  /** A contiguous slice is a subsequence. */
  lemma {:induction false} SliceIsSubseq(s: seq<Record>, lo: nat, hi: nat)
    requires lo <= hi <= |s|
    ensures IsSubseq(s[lo..hi], s)
    decreases |s|
  {
    if lo < hi {
      if lo > 0 {
        SliceIsSubseq(s[1..], lo - 1, hi - 1);
        assert s[1..][lo - 1..hi - 1] == s[lo..hi];
      } else {
        SliceIsSubseq(s[1..], 0, hi - 1);
        assert s[1..][0..hi - 1] == s[lo..hi][1..];
      }
    }
  }

  /** A subsequence of a sorted sequence is sorted. */
  lemma {:induction false} SubseqSorted(t: seq<Record>, s: seq<Record>, keys: seq<SortKey>)
    requires IsSubseq(t, s) && Sorted(s, keys)
    ensures Sorted(t, keys)
    decreases |s|
  {
    if t != [] {
      SortedSuffix(s, 1, keys);
      if t[0] == s[0] && IsSubseq(t[1..], s[1..]) {
        SubseqSorted(t[1..], s[1..], keys);
        SubseqMembers(t[1..], s[1..]);
        forall e | e in t[1..]
          ensures !LexLess(e, t[0], keys)
        {
          var j :| 0 <= j < |s[1..]| && s[1..][j] == e;
          assert s[j + 1] == e;
        }
        SortedCons(t[0], t[1..], keys);
        assert t == [t[0]] + t[1..];
      } else {
        SubseqSorted(t, s[1..], keys);
      }
    }
  }

  // ---------------------------------------------------------------------
  // Tie classes and filters.

  /** The records of `s` that tie with `x` on every key, in their order in `s`. */
  function ClassOf(s: seq<Record>, x: Record, keys: seq<SortKey>): seq<Record> {
    if s == [] then []
    else (if LexEq(s[0], x, keys) then [s[0]] else []) + ClassOf(s[1..], x, keys)
  }

  /** `[r for r in s if r.get(field) is not None]`. */
  function Present(s: seq<Record>, field: string): seq<Record> {
    if s == [] then []
    else (if Get(s[0], field) != VNone then [s[0]] else []) + Present(s[1..], field)
  }

  /** What is left after dropping, key by key from the last to the first,
      the records that lack that key. */
  function PresentAll(s: seq<Record>, keys: seq<SortKey>): seq<Record>
    decreases |keys|
  {
    if keys == [] then s else Present(PresentAll(s, keys[1..]), keys[0].field)
  }

  /** Every sort key is present (not None) in `r`. */
  predicate AllPresent(r: Record, keys: seq<SortKey>) {
    forall i :: 0 <= i < |keys| ==> Get(r, keys[i].field) != VNone
  }

  lemma {:induction false} ClassOfMembers(s: seq<Record>, x: Record, keys: seq<SortKey>)
    ensures forall e :: e in ClassOf(s, x, keys) <==> e in s && LexEq(e, x, keys)
  {
    if s != [] {
      ClassOfMembers(s[1..], x, keys);
      assert s == [s[0]] + s[1..];
    }
  }

  lemma {:induction false} ClassOfIsSubseq(s: seq<Record>, x: Record, keys: seq<SortKey>)
    ensures IsSubseq(ClassOf(s, x, keys), s)
  {
    if s != [] {
      var c := ClassOf(s, x, keys);
      var t := ClassOf(s[1..], x, keys);
      ClassOfIsSubseq(s[1..], x, keys);
      if LexEq(s[0], x, keys) {
        assert c == [s[0]] + t;
        assert c != [] && c[0] == s[0] && c[1..] == t;
      } else {
        assert c == t;
      }
    }
  }

  lemma {:induction false} ClassOfNone(s: seq<Record>, x: Record, keys: seq<SortKey>)
    requires forall e :: e in s ==> !LexEq(e, x, keys)
    ensures ClassOf(s, x, keys) == []
  {
    if s != [] {
      assert s[0] in s;
      ClassOfNone(s[1..], x, keys);
    }
  }

  lemma {:induction false} ClassOfAppend(s: seq<Record>, e: Record, x: Record, keys: seq<SortKey>)
    ensures ClassOf(s + [e], x, keys) == ClassOf(s, x, keys) + (if LexEq(e, x, keys) then [e] else [])
  {
    var se := s + [e];
    var q := if LexEq(e, x, keys) then [e] else [];
    if s == [] {
      assert se == [e] && se[1..] == [];
    } else {
      ClassOfAppend(s[1..], e, x, keys);
      var p := if LexEq(s[0], x, keys) then [s[0]] else [];
      assert se[0] == s[0] && se[1..] == s[1..] + [e];
      assert ClassOf(se, x, keys) == p + ClassOf(s[1..] + [e], x, keys);
      assert ClassOf(s, x, keys) == p + ClassOf(s[1..], x, keys);
    }
  }

  /** Tying on `[k] + rest` is tying on `k`, then on `rest`. */
  lemma {:induction false} ClassOfSplit(s: seq<Record>, x: Record, k: SortKey, rest: seq<SortKey>)
    ensures ClassOf(s, x, [k] + rest) == ClassOf(ClassOf(s, x, [k]), x, rest)
  {
    if s != [] {
      var c := ClassOf(s, x, [k]);
      var t := ClassOf(s[1..], x, [k]);
      ClassOfSplit(s[1..], x, k, rest);
      LexEqCons(s[0], x, k, rest);
      if LexEq(s[0], x, [k]) {
        assert c == [s[0]] + t;
        assert c != [] && c[0] == s[0] && c[1..] == t;
      } else {
        assert c == t;
      }
    }
  }

  lemma {:induction false} ClassOfCommute(s: seq<Record>, x: Record, a: seq<SortKey>, b: seq<SortKey>)
    ensures ClassOf(ClassOf(s, x, a), x, b) == ClassOf(ClassOf(s, x, b), x, a)
  {
    if s != [] {
      var ca := ClassOf(s, x, a);
      var ta := ClassOf(s[1..], x, a);
      var cb := ClassOf(s, x, b);
      var tb := ClassOf(s[1..], x, b);
      ClassOfCommute(s[1..], x, a, b);
      if LexEq(s[0], x, a) {
        assert ca == [s[0]] + ta;
        assert ca != [] && ca[0] == s[0] && ca[1..] == ta;
      } else {
        assert ca == ta;
      }
      if LexEq(s[0], x, b) {
        assert cb == [s[0]] + tb;
        assert cb != [] && cb[0] == s[0] && cb[1..] == tb;
      } else {
        assert cb == tb;
      }
    }
  }

  /** Dropping records without field `k` loses none that tie with an `x`
      that has it. */
  lemma {:induction false} PresentKeepsClass(s: seq<Record>, x: Record, k: SortKey)
    requires Get(x, k.field) != VNone
    ensures ClassOf(Present(s, k.field), x, [k]) == ClassOf(s, x, [k])
  {
    assert [k][1..] == [];
    if s != [] {
      var p := Present(s, k.field);
      var t := Present(s[1..], k.field);
      PresentKeepsClass(s[1..], x, k);
      if Get(s[0], k.field) != VNone {
        assert p == [s[0]] + t;
        assert p != [] && p[0] == s[0] && p[1..] == t;
      } else {
        assert p == t;
        assert !LexEq(s[0], x, [k]);
      }
    }
  }

  lemma {:induction false} PresentMembers(s: seq<Record>, field: string)
    ensures forall e :: e in Present(s, field) <==> e in s && Get(e, field) != VNone
  {
    if s != [] {
      PresentMembers(s[1..], field);
      assert s == [s[0]] + s[1..];
    }
  }

  lemma {:induction false} PresentIsSubseq(s: seq<Record>, field: string)
    ensures IsSubseq(Present(s, field), s)
  {
    if s != [] {
      var p := Present(s, field);
      var t := Present(s[1..], field);
      PresentIsSubseq(s[1..], field);
      if Get(s[0], field) != VNone {
        assert p == [s[0]] + t;
        assert p != [] && p[0] == s[0] && p[1..] == t;
      } else {
        assert p == t;
      }
    }
  }

  /** `PresentAll` keeps exactly the records that have every key, in order. */
  lemma {:induction false} PresentAllSpec(s: seq<Record>, keys: seq<SortKey>)
    ensures IsSubseq(PresentAll(s, keys), s)
    ensures forall e :: e in PresentAll(s, keys) <==> e in s && AllPresent(e, keys)
    decreases |keys|
  {
    if keys == [] {
      SubseqReflexive(s);
    } else {
      var inner := PresentAll(s, keys[1..]);
      PresentAllSpec(s, keys[1..]);
      PresentIsSubseq(inner, keys[0].field);
      SubseqTransitive(Present(inner, keys[0].field), inner, s);
      PresentMembers(inner, keys[0].field);
      forall e
        ensures e in PresentAll(s, keys) <==> e in s && AllPresent(e, keys)
      {
        if e in s && AllPresent(e, keys) {
          assert AllPresent(e, keys[1..]) by {
            forall i | 0 <= i < |keys[1..]|
              ensures Get(e, keys[1..][i].field) != VNone
            {
              assert keys[1..][i] == keys[i + 1];
            }
          }
        }
        if e in PresentAll(s, keys) {
          forall i | 0 <= i < |keys|
            ensures Get(e, keys[i].field) != VNone
          {
            if i > 0 {
              assert keys[i] == keys[1..][i - 1];
            }
          }
        }
      }
    }
  }

  /** If no record of `s` has field `keys[0]` absent, none ties with an
      `x` that lacks it. */
  lemma AbsentClassEmpty(s: seq<Record>, x: Record, keys: seq<SortKey>)
    requires |keys| > 0 && Get(x, keys[0].field) == VNone
    requires forall e :: e in s ==> Get(e, keys[0].field) != VNone
    ensures ClassOf(s, x, keys) == []
  {
    ClassOfNone(s, x, keys);
  }

  /** Two members of one tie class of `s` appear in that class in the order
      they have in `s`; so if the class is sorted by `rest`, they are too. */
  lemma {:induction false} ClassPairs(s: seq<Record>, x: Record, k: seq<SortKey>,
                                      rest: seq<SortKey>, i: nat, j: nat)
    requires i < j < |s|
    requires LexEq(s[i], x, k) && LexEq(s[j], x, k)
    requires Sorted(ClassOf(s, x, k), rest)
    ensures !LexLess(s[j], s[i], rest)
  {
    var c := ClassOf(s, x, k);
    var tail := ClassOf(s[1..], x, k);
    if i == 0 {
      assert c == [s[0]] + tail;
      ClassOfMembers(s[1..], x, k);
      assert s[j] == s[1..][j - 1];
      assert s[j] in s[1..];
      assert s[j] in tail;
      var m :| 0 <= m < |tail| && tail[m] == s[j];
      assert c[m + 1] == s[j] && c[0] == s[i];
      assert !LexLess(c[m + 1], c[0], rest);
    } else {
      var p := if LexEq(s[0], x, k) then [s[0]] else [];
      assert c == p + tail;
      SortedSuffix(c, |p|, rest);
      assert c[|p|..] == tail;
      assert s[1..][i - 1] == s[i] && s[1..][j - 1] == s[j];
      ClassPairs(s[1..], x, k, rest, i - 1, j - 1);
    }
  }

  // ---------------------------------------------------------------------
  // The stable sort.

  /** Insert `x` after every record that does not come strictly after it. */
  function Insert(x: Record, s: seq<Record>, keys: seq<SortKey>): seq<Record> {
    if s == [] then [x]
    else if LexLess(x, s[0], keys) then [x] + s
    else [s[0]] + Insert(x, s[1..], keys)
  }

  /** Python's `sorted` by `keys`: each record in turn is inserted after
      all that do not come strictly after it, so ties keep input order. */
  function SortBy(xs: seq<Record>, keys: seq<SortKey>): seq<Record>
    decreases |xs|
  {
    if xs == [] then [] else Insert(xs[|xs| - 1], SortBy(xs[..|xs| - 1], keys), keys)
  }

  lemma {:induction false} InsertMultiset(x: Record, s: seq<Record>, keys: seq<SortKey>)
    ensures multiset(Insert(x, s, keys)) == multiset(s) + multiset{x}
  {
    if s != [] && !LexLess(x, s[0], keys) {
      InsertMultiset(x, s[1..], keys);
      assert s == [s[0]] + s[1..];
    }
  }

  lemma {:induction false} InsertSorted(x: Record, s: seq<Record>, keys: seq<SortKey>)
    requires Sorted(s, keys)
    ensures Sorted(Insert(x, s, keys), keys)
  {
    if s == [] {
    } else if LexLess(x, s[0], keys) {
      forall e | e in s
        ensures !LexLess(e, x, keys)
      {
        var j :| 0 <= j < |s| && s[j] == e;
        if LexLess(e, x, keys) {
          LexLessTransitive(e, x, s[0], keys);
          if j == 0 {
            LexLessIrreflexive(e, keys);
          }
        }
      }
      SortedCons(x, s, keys);
    } else {
      SortedSuffix(s, 1, keys);
      InsertSorted(x, s[1..], keys);
      InsertMultiset(x, s[1..], keys);
      forall e | e in Insert(x, s[1..], keys)
        ensures !LexLess(e, s[0], keys)
      {
        assert e in multiset(Insert(x, s[1..], keys));
        if e != x {
          assert e in s[1..];
          var j :| 0 <= j < |s[1..]| && s[1..][j] == e;
          assert s[j + 1] == e;
        }
      }
      SortedCons(s[0], Insert(x, s[1..], keys), keys);
    }
  }

  /** A record strictly before the head of a sorted sequence is strictly
      before each of its records. */
  lemma BeforeHead(x: Record, s: seq<Record>, e: Record, keys: seq<SortKey>)
    requires Sorted(s, keys) && s != [] && LexLess(x, s[0], keys) && e in s
    ensures LexLess(x, e, keys)
  {
    var j :| 0 <= j < |s| && s[j] == e;
    if j > 0 {
      assert !LexLess(e, s[0], keys);
      LexTotal(s[0], e, keys);
      if LexLess(s[0], e, keys) {
        LexLessTransitive(x, s[0], e, keys);
      } else {
        LexLessThenEq(x, s[0], e, keys);
      }
    }
  }

  /** Inserting `x` adds it at the END of its tie class. */
  /** Nothing in a sorted sequence that starts after `x` ties with `x`. */
  lemma NoTieAfterSmaller(x: Record, s: seq<Record>, y: Record, keys: seq<SortKey>)
    requires Sorted(s, keys) && s != [] && LexLess(x, s[0], keys) && LexEq(x, y, keys)
    ensures ClassOf(s, y, keys) == []
  {
    forall e | e in s
      ensures !LexEq(e, y, keys)
    {
      BeforeHead(x, s, e, keys);
      if LexEq(e, y, keys) {
        LexEqSymmetric(e, y, keys);
        LexEqTransitive(x, y, e, keys);
        LexEqNotLess(x, e, keys);
      }
    }
    ClassOfNone(s, y, keys);
  }

  lemma ClassOfCons(e: Record, s: seq<Record>, y: Record, keys: seq<SortKey>)
    ensures ClassOf([e] + s, y, keys) == (if LexEq(e, y, keys) then [e] else []) + ClassOf(s, y, keys)
  {
    assert ([e] + s)[0] == e && ([e] + s)[1..] == s;
  }

  /** Inserting past a head that `x` does not precede keeps that head. */
  lemma InsertPast(x: Record, s: seq<Record>, keys: seq<SortKey>)
    requires s != [] && !LexLess(x, s[0], keys)
    ensures Insert(x, s, keys) == [s[0]] + Insert(x, s[1..], keys)
  {
  }

  lemma ClassOfConsIn(e: Record, s: seq<Record>, y: Record, keys: seq<SortKey>)
    requires LexEq(e, y, keys)
    ensures ClassOf([e] + s, y, keys) == [e] + ClassOf(s, y, keys)
  {
    assert ([e] + s)[0] == e && ([e] + s)[1..] == s;
  }

  lemma ClassOfConsOut(e: Record, s: seq<Record>, y: Record, keys: seq<SortKey>)
    requires !LexEq(e, y, keys)
    ensures ClassOf([e] + s, y, keys) == ClassOf(s, y, keys)
  {
    assert ([e] + s)[0] == e && ([e] + s)[1..] == s;
  }

  lemma ConsAssoc(h: Record, a: seq<Record>, t: seq<Record>)
    ensures [h] + (a + t) == ([h] + a) + t
  {
  }

  /** Putting the same head in front of two sequences keeps a class
      equation between them. */
  lemma ClassPast(h: Record, tail: seq<Record>, rest: seq<Record>, t: seq<Record>, y: Record, keys: seq<SortKey>)
    requires ClassOf(rest, y, keys) == ClassOf(tail, y, keys) + t
    ensures ClassOf([h] + rest, y, keys) == ClassOf([h] + tail, y, keys) + t
  {
    var a := ClassOf(tail, y, keys);
    if LexEq(h, y, keys) {
      ClassOfConsIn(h, rest, y, keys);
      ClassOfConsIn(h, tail, y, keys);
      ConsAssoc(h, a, t);
    } else {
      ClassOfConsOut(h, rest, y, keys);
      ClassOfConsOut(h, tail, y, keys);
    }
  }

  lemma {:induction false} InsertClass(x: Record, s: seq<Record>, y: Record, keys: seq<SortKey>)
    requires Sorted(s, keys)
    ensures ClassOf(Insert(x, s, keys), y, keys)
            == ClassOf(s, y, keys) + (if LexEq(x, y, keys) then [x] else [])
  {
    if s == [] {
      ClassOfCons(x, [], y, keys);
    } else if LexLess(x, s[0], keys) {
      ClassOfCons(x, s, y, keys);
      if LexEq(x, y, keys) {
        NoTieAfterSmaller(x, s, y, keys);
      }
    } else {
      SortedSuffix(s, 1, keys);
      InsertClass(x, s[1..], y, keys);
      InsertPast(x, s, keys);
      ClassPast(s[0], s[1..], Insert(x, s[1..], keys), if LexEq(x, y, keys) then [x] else [], y, keys);
      assert [s[0]] + s[1..] == s;
    }
  }

  /** Python's `sorted` yields a sorted permutation of its input. */
  lemma {:induction false} SortByPermutes(xs: seq<Record>, keys: seq<SortKey>)
    ensures Sorted(SortBy(xs, keys), keys)
    ensures multiset(SortBy(xs, keys)) == multiset(xs)
    decreases |xs|
  {
    if xs != [] {
      var init := xs[..|xs| - 1];
      SortByPermutes(init, keys);
      InsertSorted(xs[|xs| - 1], SortBy(init, keys), keys);
      InsertMultiset(xs[|xs| - 1], SortBy(init, keys), keys);
      assert xs == init + [xs[|xs| - 1]];
    }
  }

  /** Python's `sorted` is stable: each tie class keeps its input order. */
  lemma {:induction false} SortByStable(xs: seq<Record>, y: Record, keys: seq<SortKey>)
    ensures ClassOf(SortBy(xs, keys), y, keys) == ClassOf(xs, y, keys)
    decreases |xs|
  {
    if xs != [] {
      var init := xs[..|xs| - 1];
      var last := xs[|xs| - 1];
      SortByStable(init, y, keys);
      SortByPermutes(init, keys);
      InsertClass(last, SortBy(init, keys), y, keys);
      ClassOfAppend(init, last, y, keys);
      assert xs == init + [last];
    }
  }

  lemma {:induction false} SortByMembers(xs: seq<Record>, keys: seq<SortKey>)
    ensures forall e :: e in SortBy(xs, keys) <==> e in xs
  {
    SortByPermutes(xs, keys);
    forall e
      ensures e in SortBy(xs, keys) <==> e in xs
    {
      assert e in SortBy(xs, keys) <==> e in multiset(SortBy(xs, keys));
      assert e in xs <==> e in multiset(xs);
    }
  }

  lemma {:induction false} InsertNoKeys(x: Record, s: seq<Record>)
    ensures Insert(x, s, []) == s + [x]
  {
    if s != [] {
      InsertNoKeys(x, s[1..]);
      assert s == [s[0]] + s[1..];
    }
  }

  /** With no sort key nothing is reordered. */
  lemma {:induction false} SortByNoKeys(xs: seq<Record>)
    ensures SortBy(xs, []) == xs
    decreases |xs|
  {
    if xs != [] {
      var init := xs[..|xs| - 1];
      SortByNoKeys(init);
      InsertNoKeys(xs[|xs| - 1], init);
      assert xs == init + [xs[|xs| - 1]];
    }
  }

  lemma ClassOfHead(s: seq<Record>, keys: seq<SortKey>)
    requires s != []
    ensures ClassOf(s, s[0], keys) == [s[0]] + ClassOf(s[1..], s[0], keys)
  {
    LexEqReflexive(s[0], keys);
  }

  /** If `b` is sorted and has the tie classes of `a`, `a[0]` cannot come
      strictly before `b[0]`. */
  lemma HeadNotBefore(a: seq<Record>, b: seq<Record>, keys: seq<SortKey>)
    requires a != [] && Sorted(b, keys)
    requires forall x :: ClassOf(a, x, keys) == ClassOf(b, x, keys)
    ensures b != [] && !LexLess(a[0], b[0], keys)
  {
    var x := a[0];
    ClassOfHead(a, keys);
    var c := ClassOf(b, x, keys);
    assert c == ClassOf(a, x, keys);
    ClassOfMembers(b, x, keys);
    assert c[0] in c;
    var j :| 0 <= j < |b| && b[j] == c[0];
    if j > 0 {
      assert !LexLess(b[j], b[0], keys);
    } else {
      LexLessIrreflexive(b[0], keys);
    }
    LexEqThenLess(b[j], x, b[0], keys);
  }

  /** A sorted sequence is fixed by its tie classes: two sorted sequences
      whose tie classes agree are equal. */
  lemma {:induction false} SortedUnique(a: seq<Record>, b: seq<Record>, keys: seq<SortKey>)
    requires Sorted(a, keys) && Sorted(b, keys)
    requires forall x :: ClassOf(a, x, keys) == ClassOf(b, x, keys)
    ensures a == b
    decreases |a|
  {
    if a != [] {
      HeadNotBefore(a, b, keys);
      HeadNotBefore(b, a, keys);
      LexTotal(a[0], b[0], keys);
      var x := a[0];
      LexEqSymmetric(a[0], b[0], keys);
      ClassOfHead(a, keys);
      assert ClassOf(b, x, keys) == [b[0]] + ClassOf(b[1..], x, keys);
      assert ClassOf(a, x, keys)[0] == ClassOf(b, x, keys)[0];
      forall y
        ensures ClassOf(a[1..], y, keys) == ClassOf(b[1..], y, keys)
      {
        var p := if LexEq(a[0], y, keys) then [a[0]] else [];
        assert ClassOf(a, y, keys) == p + ClassOf(a[1..], y, keys);
        assert ClassOf(b, y, keys) == p + ClassOf(b[1..], y, keys);
        assert ClassOf(a, y, keys)[|p|..] == ClassOf(a[1..], y, keys);
        assert ClassOf(b, y, keys)[|p|..] == ClassOf(b[1..], y, keys);
      }
      SortedSuffix(a, 1, keys);
      SortedSuffix(b, 1, keys);
      SortedUnique(a[1..], b[1..], keys);
      assert a == [a[0]] + a[1..] && b == [b[0]] + b[1..];
    } else if b != [] {
      HeadNotBefore(b, a, keys);
    }
  }

  // ---------------------------------------------------------------------
  // Sorting key by key, from the last key to the first.

  /** The reference order for `sort` keys `keys`: keep the records that
      have every key, then stably sort them once, lexicographically. */
  function Ordered(xs: seq<Record>, keys: seq<SortKey>): seq<Record> {
    SortBy(PresentAll(xs, keys), keys)
  }

  /** Ordered by one more key in front: filtering out records without the
      new key and stably sorting by it alone gives the lexicographic
      order on all keys. */
  lemma OrderedStep(xs: seq<Record>, k: SortKey, rest: seq<SortKey>)
    ensures Ordered(xs, [k] + rest) == SortBy(Present(Ordered(xs, rest), k.field), [k])
  {
    var keys := [k] + rest;
    assert keys[1..] == rest;
    assert [k][1..] == [];
    var a := PresentAll(xs, rest);
    var s := SortBy(a, rest);
    var p := Present(s, k.field);
    var out := SortBy(p, [k]);
    var pa := Present(a, k.field);
    var want := SortBy(pa, keys);
    assert PresentAll(xs, keys) == pa;

    SortByPermutes(a, rest);
    SortByPermutes(p, [k]);
    SortByPermutes(pa, keys);
    PresentIsSubseq(s, k.field);
    SubseqSorted(p, s, rest);

    // out is sorted on [k] + rest
    forall i, j | 0 <= i < j < |out|
      ensures !LexLess(out[j], out[i], keys)
    {
      assert !LexLess(out[j], out[i], [k]);
      if Get(out[j], k.field) == Get(out[i], k.field) {
        LexEqReflexive(out[i], [k]);
        SortByStable(p, out[i], [k]);
        ClassOfIsSubseq(p, out[i], [k]);
        SubseqSorted(ClassOf(p, out[i], [k]), p, rest);
        ClassPairs(out, out[i], [k], rest, i, j);
      }
    }

    // out has the tie classes of want
    SortByMembers(p, [k]);
    SortByMembers(pa, keys);
    PresentMembers(s, k.field);
    PresentMembers(a, k.field);
    forall x
      ensures ClassOf(out, x, keys) == ClassOf(want, x, keys)
    {
      if Get(x, k.field) == VNone {
        AbsentClassEmpty(out, x, keys);
        AbsentClassEmpty(want, x, keys);
      } else {
        calc {
          ClassOf(out, x, keys);
          { ClassOfSplit(out, x, k, rest); }
          ClassOf(ClassOf(out, x, [k]), x, rest);
          { SortByStable(p, x, [k]); }
          ClassOf(ClassOf(p, x, [k]), x, rest);
          { PresentKeepsClass(s, x, k); }
          ClassOf(ClassOf(s, x, [k]), x, rest);
          { ClassOfCommute(s, x, [k], rest); }
          ClassOf(ClassOf(s, x, rest), x, [k]);
          { SortByStable(a, x, rest); }
          ClassOf(ClassOf(a, x, rest), x, [k]);
          { ClassOfCommute(a, x, [k], rest); }
          ClassOf(ClassOf(a, x, [k]), x, rest);
          { PresentKeepsClass(a, x, k); }
          ClassOf(ClassOf(pa, x, [k]), x, rest);
          { ClassOfSplit(pa, x, k, rest); }
          ClassOf(pa, x, keys);
          { SortByStable(pa, x, keys); }
          ClassOf(want, x, keys);
        }
      }
    }
    SortedUnique(out, want, keys);
  }

  lemma OrderedNoKeys(xs: seq<Record>)
    ensures Ordered(xs, []) == xs
  {
    SortByNoKeys(xs);
  }

  /** What the reference order promises: exactly the records of `xs` that
      have every key, sorted lexicographically, each tie class in the
      order of `xs`. */
  lemma OrderedSpec(xs: seq<Record>, keys: seq<SortKey>)
    ensures Sorted(Ordered(xs, keys), keys)
    ensures multiset(Ordered(xs, keys)) == multiset(PresentAll(xs, keys))
    ensures forall e :: e in Ordered(xs, keys) <==> e in xs && AllPresent(e, keys)
    ensures forall x :: ClassOf(Ordered(xs, keys), x, keys) == ClassOf(PresentAll(xs, keys), x, keys)
  {
    SortByPermutes(PresentAll(xs, keys), keys);
    SortByMembers(PresentAll(xs, keys), keys);
    PresentAllSpec(xs, keys);
    forall x
      ensures ClassOf(Ordered(xs, keys), x, keys) == ClassOf(PresentAll(xs, keys), x, keys)
    {
      SortByStable(PresentAll(xs, keys), x, keys);
    }
  }

  /** In a sorted sequence the first key is primary: it never decreases
      (never increases when descending) from one record to a later one. */
  lemma SortedFirstKey(s: seq<Record>, keys: seq<SortKey>, i: nat, j: nat)
    requires Sorted(s, keys) && |keys| > 0 && i < j < |s|
    ensures !KeyLess(s[j], s[i], keys[0])
  {
    assert !LexLess(s[j], s[i], keys);
  }
}
