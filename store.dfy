/** The records the Prisma store holds, and the generic list operations its
    queries are built from: filtering, ordering by `createdAt` descending,
    and `skip`/`take` slicing. */
module Store {
  import opened Wrappers

  /** A CSV record as the CSV parser yields it (column name to cell text);
      it is also the JSON `data` blob of a generic `Row`. */
  type Record = map<string, string>

  /** A stored `Person` row. Dates (`dob`, `createdAt`) are timestamps. */
  datatype Person = Person(
    id: string,
    name: string,
    enName: string,
    age: Option<int>,
    dob: Option<int>,
    sex: Option<string>,
    source: Option<string>,
    createdAt: int)

  /** A stored generic `Row`: an opaque JSON blob and its insertion time. */
  datatype StoredRow = StoredRow(data: Record, createdAt: int)

  /** A snapshot of the two tables. */
  datatype Tables = Tables(persons: seq<Person>, rows: seq<StoredRow>)

  function PersonCreatedAt(p: Person): int { p.createdAt }
  function RowCreatedAt(r: StoredRow): int { r.createdAt }

  // ---------------------------------------------------------------------
  // Filtering

  function Filter<T>(s: seq<T>, keep: T -> bool): (r: seq<T>)
    ensures |r| <= |s|
    ensures forall k :: 0 <= k < |r| ==> keep(r[k]) && r[k] in s
    ensures forall k :: 0 <= k < |s| && keep(s[k]) ==> s[k] in r
    ensures multiset(r) <= multiset(s)
  {
    if s == [] then []
    else
      assert s == [s[0]] + s[1..];
      assert forall k :: 1 <= k < |s| ==> s[k] == s[1..][k - 1];
      if keep(s[0]) then [s[0]] + Filter(s[1..], keep)
      else Filter(s[1..], keep)
  }

  /** Nothing is kept when no element passes. */
  lemma {:induction false} FilterNone<T>(s: seq<T>, keep: T -> bool)
    requires forall k :: 0 <= k < |s| ==> !keep(s[k])
    ensures Filter(s, keep) == []
  {
    if s != [] {
      assert forall k :: 0 <= k < |s[1..]| ==> s[1..][k] == s[k + 1];
      FilterNone(s[1..], keep);
    }
  }

  /** Filtering keeps order: it distributes over concatenation, one element
      at a time. */
  lemma {:induction false} FilterConcat<T>(a: seq<T>, b: seq<T>, keep: T -> bool)
    ensures Filter(a + b, keep) == Filter(a, keep) + Filter(b, keep)
    decreases |a|
  {
    if a != [] {
      var ab := a + b;
      assert ab[0] == a[0];
      assert ab[1..] == a[1..] + b;
      FilterConcat(a[1..], b, keep);
      assert Filter(ab, keep) == (if keep(a[0]) then [a[0]] else []) + Filter(ab[1..], keep);
      assert Filter(a, keep) == (if keep(a[0]) then [a[0]] else []) + Filter(a[1..], keep);
    } else {
      assert a + b == b;
    }
  }

  // ---------------------------------------------------------------------
  // Ordering by a key, largest first (`orderBy: { createdAt: 'desc' }`)

  predicate SortedDesc<T>(s: seq<T>, key: T -> int) {
    forall i, j :: 0 <= i < j < |s| ==> key(s[i]) >= key(s[j])
  }

  /** Insert `x` before the first element whose key is not larger, so that
      among equal keys the earlier-inserted element stays first. */
  function InsertDesc<T>(x: T, s: seq<T>, key: T -> int): (r: seq<T>)
    ensures multiset(r) == multiset(s) + multiset{x}
    ensures |r| == |s| + 1
  {
    if s == [] || key(s[0]) <= key(x) then [x] + s
    else
      assert s == [s[0]] + s[1..];
      [s[0]] + InsertDesc(x, s[1..], key)
  }

  lemma {:induction false} InsertDescSorted<T>(x: T, s: seq<T>, key: T -> int)
    requires SortedDesc(s, key)
    ensures SortedDesc(InsertDesc(x, s, key), key)
    ensures forall k :: 0 <= k < |InsertDesc(x, s, key)| ==>
              InsertDesc(x, s, key)[k] == x || InsertDesc(x, s, key)[k] in s
  {
    if s != [] && key(s[0]) > key(x) {
      InsertDescSorted(x, s[1..], key);
      var t := InsertDesc(x, s[1..], key);
      forall k | 0 <= k < |t| ensures key(s[0]) >= key(t[k]) {
        if t[k] != x {
          var m :| 1 <= m < |s| && s[m] == t[k] by {
            assert t[k] in s[1..];
            var m' :| 0 <= m' < |s[1..]| && s[1..][m'] == t[k];
            assert s[m' + 1] == t[k];
          }
        }
      }
    }
  }

  /** A stable sort by key, largest first. */
  function SortDesc<T>(s: seq<T>, key: T -> int): (r: seq<T>)
    ensures multiset(r) == multiset(s)
    ensures |r| == |s|
  {
    if s == [] then []
    else
      assert s == [s[0]] + s[1..];
      InsertDesc(s[0], SortDesc(s[1..], key), key)
  }

  /** The store's ordering really orders: every result of `SortDesc` is
      sorted, largest key first, and is a permutation of its input. */
  lemma {:induction false} SortDescSorted<T>(s: seq<T>, key: T -> int)
    ensures SortedDesc(SortDesc(s, key), key)
    ensures multiset(SortDesc(s, key)) == multiset(s)
  {
    if s != [] {
      SortDescSorted(s[1..], key);
      InsertDescSorted(s[0], SortDesc(s[1..], key), key);
    }
  }

  // ---------------------------------------------------------------------
  // skip / take

  /** `skip: offset, take: limit` on an already ordered list. */
  function Slice<T>(s: seq<T>, skip: nat, take: nat): (r: seq<T>)
    ensures |r| <= take
    ensures skip >= |s| ==> r == []
    ensures skip < |s| ==> |r| == if skip + take <= |s| then take else |s| - skip
    ensures forall k :: 0 <= k < |r| ==> r[k] == s[skip + k]
  {
    if skip >= |s| then []
    else if skip + take <= |s| then s[skip..skip + take]
    else s[skip..]
  }

  /** A slice of a sorted list is sorted. */
  lemma SliceSorted<T>(s: seq<T>, skip: nat, take: nat, key: T -> int)
    requires SortedDesc(s, key)
    ensures SortedDesc(Slice(s, skip, take), key)
  {
    var r := Slice(s, skip, take);
    forall i, j | 0 <= i < j < |r| ensures key(r[i]) >= key(r[j]) {
      assert r[i] == s[skip + i] && r[j] == s[skip + j];
    }
  }

  // ---------------------------------------------------------------------
  // Sequence facts, proved once for every element type

  lemma ShiftFirst<T>(t: seq<T>, b: seq<T>)
    requires b != []
    ensures (t + [b[0]]) + b[1..] == t + b
  {
    assert b == [b[0]] + b[1..];
  }

  lemma SliceSplit<T>(s: seq<T>, i: nat, j: nat, e: nat)
    requires i <= j <= e <= |s|
    ensures s[i..e] == s[i..j] + s[j..e]
  {
  }

  lemma TakeAll<T>(s: seq<T>)
    ensures s[..|s|] == s
  {
  }

  lemma AppendEmpty<T>(t: seq<T>)
    ensures t + [] == t && [] + t == t
  {
  }
}
