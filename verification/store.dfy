/** The in-memory repository that the service tests inject in place of the
    database.  `MockUserRepository` and `MockCourseRepository` are the same
    code over different records: a map from id to record, a counter that names
    records created without an id, and a switch that makes every call fail
    with "database error" before it looks at the map.  This module holds that
    shared behaviour once, generic in the record type.

    Go visits a map in an order it randomises on every `range`; operations
    that range over the records (`List`, and the e-mail lookup of the user
    store) therefore take the visiting order as an argument `scan`.
 */
module Store {
  import opened GoText
  import opened Results

  datatype Repo<T> = Repo(records: map<GoString, T>, nextId: int, failing: bool)

  /** What a repository call that may change the records hands back: the
      repository afterwards and the call's own result. */
  datatype Outcome<T, U> = Outcome(repo: Repo<T>, result: Result<U>)

  const DatabaseError := Error("database error")

  /** An order in which `range` may visit the keys of `m`: every key exactly once. */
  predicate IsScanOf<T>(scan: seq<GoString>, m: map<GoString, T>) {
    && |scan| == |m|
    && (forall i | 0 <= i < |scan| :: scan[i] in m)
    && (forall k | k in m :: k in scan)
  }

  /** The id `Create` invents for a record whose id is empty: `string(rune(nextID))`. */
  function CounterId(n: int): (id: GoString)
    ensures id != []
    ensures 0 < n < 0x80 ==> id == [n as char]
  {
    EncodeRune(ToInt32(n))
  }

  /** A store that is not failing names a record that arrives without an id
      from its counter, moving the counter on, and otherwise keeps the id it
      was given; either way it then stores `withId(key)` under that key,
      replacing whatever was there. */
  function Create<T>(s: Repo<T>, id: GoString, withId: GoString -> T): (r: Outcome<T, GoString>)
    ensures s.failing ==> r == Outcome(s, Err(DatabaseError))
    ensures !s.failing ==> r.result.Ok? && r.result.value != [] && !r.repo.failing
    ensures !s.failing && id != [] ==>
      r.result.value == id && r.repo.nextId == s.nextId
    ensures !s.failing && id == [] ==>
      r.result.value == CounterId(s.nextId) && r.repo.nextId == s.nextId + 1
    ensures r.result.Ok? ==>
      var key := r.result.value;
      && r.repo.records.Keys == s.records.Keys + {key}
      && r.repo.records[key] == withId(key)
      && (forall k | k in s.records && k != key :: r.repo.records[k] == s.records[k])
  {
    if s.failing then
      Outcome(s, Err(DatabaseError))
    else
      var key := if id == [] then CounterId(s.nextId) else id;
      var next := if id == [] then s.nextId + 1 else s.nextId;
      Outcome(Repo(s.records[key := withId(key)], next, false), Ok(key))
  }

  /** `FindByID`: a missing id is not an error, it is "no record". */
  function Find<T>(s: Repo<T>, id: GoString): (r: Result<Option<T>>)
    ensures s.failing <==> r.Err?
    ensures r.Err? ==> r.error == DatabaseError
    ensures r == Ok(None) <==> !s.failing && id !in s.records
    ensures r.Ok? && r.value.Some? ==> id in s.records && r.value.value == s.records[id]
  {
    if s.failing then Err(DatabaseError)
    else if id in s.records then Ok(Some(s.records[id]))
    else Ok(None)
  }

  /** `Update`: the record stored under `id` is replaced as a whole; a
      missing id fails with the store's not-found error and changes nothing. */
  function Replace<T>(s: Repo<T>, id: GoString, t: T, notFound: Error): (r: Outcome<T, ()>)
    ensures r.result.Err? ==> r.repo == s
    ensures r.result.Err? <==> s.failing || id !in s.records
    ensures s.failing ==> r.result == Err(DatabaseError)
    ensures !s.failing && id !in s.records ==> r.result == Err(notFound)
    ensures r.result.Ok? ==>
      && r.repo.records.Keys == s.records.Keys
      && r.repo.records[id] == t
      && (forall k | k in s.records && k != id :: r.repo.records[k] == s.records[k])
      && r.repo.nextId == s.nextId && !r.repo.failing
  {
    if s.failing then Outcome(s, Err(DatabaseError))
    else if id !in s.records then Outcome(s, Err(notFound))
    else Outcome(s.(records := s.records[id := t]), Ok(()))
  }

  /** `Delete`: the record stored under `id` goes; a missing id fails with
      the store's not-found error and changes nothing. */
  function Remove<T>(s: Repo<T>, id: GoString, notFound: Error): (r: Outcome<T, ()>)
    ensures r.result.Err? ==> r.repo == s
    ensures r.result.Err? <==> s.failing || id !in s.records
    ensures s.failing ==> r.result == Err(DatabaseError)
    ensures !s.failing && id !in s.records ==> r.result == Err(notFound)
    ensures r.result.Ok? ==>
      && r.repo.records.Keys == s.records.Keys - {id}
      && (forall k | k in r.repo.records :: r.repo.records[k] == s.records[k])
      && |r.repo.records| == |s.records| - 1
      && r.repo.nextId == s.nextId && !r.repo.failing
  {
    if s.failing then Outcome(s, Err(DatabaseError))
    else if id !in s.records then Outcome(s, Err(notFound))
    else
      var rest := s.records - {id};
      assert rest.Keys == s.records.Keys - {id};
      Outcome(s.(records := rest), Ok(()))
  }

  /** The records met along `scan`, in that order. */
  function Collect<T>(m: map<GoString, T>, scan: seq<GoString>): (xs: seq<T>)
    requires forall i | 0 <= i < |scan| :: scan[i] in m
    ensures |xs| == |scan|
    ensures forall i | 0 <= i < |scan| :: xs[i] == m[scan[i]]
  {
    if scan == [] then [] else [m[scan[0]]] + Collect(m, scan[1..])
  }

  /** `List`: one entry per stored key, in the order `range` visits them:
      a record stored under several keys is listed once for each. */
  function List<T(==)>(s: Repo<T>, scan: seq<GoString>): (r: Result<seq<T>>)
    requires IsScanOf(scan, s.records)
    ensures s.failing <==> r.Err?
    ensures r.Err? ==> r.error == DatabaseError
    ensures r.Ok? ==>
      && |r.value| == |s.records|
      && (forall i | 0 <= i < |r.value| :: r.value[i] in s.records.Values)
      && (forall k | k in s.records :: s.records[k] in r.value)
      && (forall i | 0 <= i < |scan| :: r.value[i] == s.records[scan[i]])
  {
    if s.failing then Err(DatabaseError)
    else
      var xs := Collect(s.records, scan);
      assert forall k | k in s.records :: s.records[k] in xs by {
        forall k | k in s.records ensures s.records[k] in xs {
          var i :| 0 <= i < |scan| && scan[i] == k;
          assert xs[i] == s.records[k];
        }
      }
      Ok(xs)
  }

  /** Every record is filed under its own id. */
  predicate KeyedById<T>(m: map<GoString, T>, idOf: T -> GoString) {
    forall k | k in m :: idOf(m[k]) == k
  }

  /** A record that has just been stored can be found again under its key. */
  lemma FindAfterCreate<T>(s: Repo<T>, id: GoString, withId: GoString -> T)
    requires Create(s, id, withId).result.Ok?
    ensures var r := Create(s, id, withId);
      Find(r.repo, r.result.value) == Ok(Some(withId(r.result.value)))
  {
  }

  /** After a successful delete the id is gone; every other lookup answers as before. */
  lemma FindAfterRemove<T>(s: Repo<T>, id: GoString, notFound: Error, other: GoString)
    requires Remove(s, id, notFound).result.Ok?
    ensures Find(Remove(s, id, notFound).repo, id) == Ok(None)
    ensures other != id ==> Find(Remove(s, id, notFound).repo, other) == Find(s, other)
  {
  }

  /** A failing store refuses every call and keeps its records. */
  lemma FailingStoreRefusesAll<T>(s: Repo<T>, id: GoString, t: T, withId: GoString -> T,
                                  notFound: Error, scan: seq<GoString>)
    requires s.failing && IsScanOf(scan, s.records)
    ensures Create(s, id, withId) == Outcome(s, Err(DatabaseError))
    ensures Find(s, id) == Err(DatabaseError)
    ensures Replace(s, id, t, notFound) == Outcome(s, Err(DatabaseError))
    ensures Remove(s, id, notFound) == Outcome(s, Err(DatabaseError))
    ensures List(s, scan) == Err(DatabaseError)
  {
  }

  // ---------------------------------------------------------------------
  // Independence from the visiting order
  // ---------------------------------------------------------------------

  /** No value occurs twice in `xs`. */
  predicate Distinct(xs: seq<GoString>) {
    forall i, j | 0 <= i < j < |xs| :: xs[i] != xs[j]
  }

  /** A sequence has at least as many entries as it has different values. */
  lemma {:induction false} SeqSetSize(xs: seq<GoString>, values: set<GoString>)
    requires forall x :: x in xs <==> x in values
    ensures |values| <= |xs|
  {
    if xs != [] {
      var rest := set x | x in xs[1..];
      SeqSetSize(xs[1..], rest);
      assert values == rest + {xs[0]};
    } else {
      assert values == {};
    }
  }

  /** A sequence with exactly as many entries as different values repeats none. */
  lemma {:induction false} FullSeqIsDistinct(xs: seq<GoString>, values: set<GoString>)
    requires forall x :: x in xs <==> x in values
    requires |values| == |xs|
    ensures Distinct(xs)
  {
    if xs != [] {
      var rest := values - {xs[0]};
      if xs[0] in xs[1..] {
        assert forall x :: x in xs[1..] <==> x in values;
        SeqSetSize(xs[1..], values);
        assert false;
      }
      assert forall x :: x in xs[1..] <==> x in rest;
      FullSeqIsDistinct(xs[1..], rest);
      forall i, j | 0 <= i < j < |xs| ensures xs[i] != xs[j] {
        if i > 0 {
          assert xs[i] == xs[1..][i - 1] && xs[j] == xs[1..][j - 1];
        } else {
          assert xs[j] in xs[1..];
        }
      }
    }
  }

  /** A visiting order meets every key exactly once. */
  lemma ScanIsDistinct<T>(scan: seq<GoString>, m: map<GoString, T>)
    requires IsScanOf(scan, m)
    ensures Distinct(scan)
  {
    FullSeqIsDistinct(scan, m.Keys);
  }

  /** In a sequence that repeats nothing, a value occurs once or not at all. */
  lemma {:induction false} DistinctCount(xs: seq<GoString>, x: GoString)
    requires Distinct(xs)
    ensures multiset(xs)[x] == if x in xs then 1 else 0
  {
    if xs != [] {
      assert xs == [xs[0]] + xs[1..];
      assert Distinct(xs[1..]) by {
        forall i, j | 0 <= i < j < |xs[1..]| ensures xs[1..][i] != xs[1..][j] {
          assert xs[1..][i] == xs[i + 1] && xs[1..][j] == xs[j + 1];
        }
      }
      DistinctCount(xs[1..], x);
      if x == xs[0] {
        assert x !in xs[1..] by {
          forall j | 0 <= j < |xs[1..]| ensures xs[1..][j] != x {
            assert xs[1..][j] == xs[j + 1];
          }
        }
      }
    }
  }

  /** Any two visiting orders of one map are permutations of each other. */
  lemma ScansArePermutations<T>(m: map<GoString, T>, scan1: seq<GoString>, scan2: seq<GoString>)
    requires IsScanOf(scan1, m) && IsScanOf(scan2, m)
    ensures multiset(scan1) == multiset(scan2)
  {
    ScanIsDistinct(scan1, m);
    ScanIsDistinct(scan2, m);
    forall k ensures multiset(scan1)[k] == multiset(scan2)[k] {
      DistinctCount(scan1, k);
      DistinctCount(scan2, k);
    }
  }

  /** Every entry of `xs` is a key of `m`. */
  predicate KeysIn<T>(xs: seq<GoString>, m: map<GoString, T>) {
    forall i | 0 <= i < |xs| :: xs[i] in m
  }

  /** Removing the entry at `j` removes one occurrence of its value. */
  lemma RemoveAt(xs: seq<GoString>, j: nat)
    requires j < |xs|
    ensures multiset(xs[..j] + xs[j + 1..]) == multiset(xs) - multiset{xs[j]}
  {
    assert xs == xs[..j] + [xs[j]] + xs[j + 1..];
  }

  /** Where the first key of `xs` sits in its permutation `ys`; the rests
      of both, without that key, are still permutations of each other. */
  lemma MatchHead(xs: seq<GoString>, ys: seq<GoString>) returns (j: nat)
    requires xs != [] && multiset(xs) == multiset(ys)
    ensures j < |ys| && ys[j] == xs[0]
    ensures multiset(xs[1..]) == multiset(ys[..j] + ys[j + 1..])
  {
    assert xs[0] in multiset(ys);
    j :| 0 <= j < |ys| && ys[j] == xs[0];
    RemoveAt(ys, j);
    assert xs == [xs[0]] + xs[1..];
  }

  /** Collecting along two key sequences one after the other. */
  lemma CollectAppend<T>(m: map<GoString, T>, xs: seq<GoString>, ys: seq<GoString>)
    requires KeysIn(xs, m) && KeysIn(ys, m)
    ensures KeysIn(xs + ys, m)
    ensures Collect(m, xs + ys) == Collect(m, xs) + Collect(m, ys)
  {
    assert KeysIn(xs + ys, m) by {
      forall i | 0 <= i < |xs + ys| ensures (xs + ys)[i] in m {
        if i < |xs| { assert (xs + ys)[i] == xs[i]; } else { assert (xs + ys)[i] == ys[i - |xs|]; }
      }
    }
  }

  /** Collecting without the key at `j` loses exactly the record under it. */
  lemma CollectRemoveAt<T>(m: map<GoString, T>, xs: seq<GoString>, j: nat)
    requires KeysIn(xs, m)
    requires j < |xs|
    ensures KeysIn(xs[..j] + xs[j + 1..], m)
    ensures multiset(Collect(m, xs)) == multiset(Collect(m, xs[..j] + xs[j + 1..])) + multiset{m[xs[j]]}
  {
    var left, right := xs[..j], xs[j + 1..];
    assert KeysIn(left, m) && KeysIn(right, m) by {
      forall i | 0 <= i < |left| ensures left[i] in m { assert left[i] == xs[i]; }
      forall i | 0 <= i < |right| ensures right[i] in m { assert right[i] == xs[j + 1 + i]; }
    }
    assert xs == left + ([xs[j]] + right);
    CollectAppend(m, [xs[j]], right);
    CollectAppend(m, left, [xs[j]] + right);
    CollectAppend(m, left, right);
    var cl, cr := Collect(m, left), Collect(m, right);
    assert Collect(m, [xs[j]]) == [m[xs[j]]];
    assert multiset(cl + ([m[xs[j]]] + cr)) == multiset(cl + cr) + multiset{m[xs[j]]};
  }

  /** Collecting along the keys of two permuted sequences gives permuted records. */
  lemma {:induction false} CollectPermutation<T>(m: map<GoString, T>, scan1: seq<GoString>, scan2: seq<GoString>)
    requires KeysIn(scan1, m) && KeysIn(scan2, m)
    requires multiset(scan1) == multiset(scan2)
    ensures multiset(Collect(m, scan1)) == multiset(Collect(m, scan2))
    decreases |scan1|
  {
    if scan1 == [] {
      assert |scan2| == |multiset(scan2)| == 0;
    } else {
      var j := MatchHead(scan1, scan2);
      var rest1, rest2 := scan1[1..], scan2[..j] + scan2[j + 1..];
      CollectRemoveAt(m, scan2, j);
      CollectPermutation(m, rest1, rest2);
      assert Collect(m, scan1) == [m[scan1[0]]] + Collect(m, rest1);
    }
  }

  /** `List` holds the same records, each as often, whatever order the map
      is visited in. */
  lemma ListIgnoresMapOrder<T>(s: Repo<T>, scan1: seq<GoString>, scan2: seq<GoString>)
    requires IsScanOf(scan1, s.records) && IsScanOf(scan2, s.records)
    ensures multiset(Collect(s.records, scan1)) == multiset(Collect(s.records, scan2))
    ensures !s.failing ==> multiset(List(s, scan1).value) == multiset(List(s, scan2).value)
  {
    ScansArePermutations(s.records, scan1, scan2);
    CollectPermutation(s.records, scan1, scan2);
  }
}
