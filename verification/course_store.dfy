/** `MockCourseRepository`: the course store the service tests inject.  It
    is the shared repository behaviour with "course not found" as its
    not-found error.
 */
module CourseStore {
  import opened GoText
  import opened Results
  import opened Store
  import opened CourseDomain

  const CourseNotFound := Error("course not found")

  /** `Create`: a course without an id is named by the counter; the course is
      then stored under its id, replacing any course already filed there. */
  function Create(s: Repo<Course>, c: Course): (r: Outcome<Course, Course>)
    ensures r.result.Err? <==> s.failing
    ensures r.result.Err? ==> r.repo == s && r.result.error == DatabaseError
    ensures r.result.Ok? ==>
      var v := r.result.value;
      && v == c.(id := v.id) && v.id != []
      && (c.id != [] ==> v.id == c.id && r.repo.nextId == s.nextId)
      && r.repo.records == s.records[v.id := v]
  {
    var o := Store.Create(s, c.id, (id: GoString) => c.(id := id));
    match o.result
    case Err(e) => Outcome(o.repo, Err(e))
    case Ok(key) =>
      assert o.repo.records == s.records[key := c.(id := key)];
      Outcome(o.repo, Ok(c.(id := key)))
  }
}

/** The module store.  Its in-memory form has the shape of the course store:
    "module not found" for a missing id, and records created by the shared
    `Store.Create`.  Listing a course's modules returns them in ascending
    `orderIndex`, as the SQL store's `ORDER BY order_index` does.
 */
module ModuleStore {
  import opened GoText
  import opened Results
  import opened Store
  import opened CourseDomain

  const ModuleNotFound := Error("module not found")

  predicate SortedByOrder(xs: seq<Module>) {
    forall i, j | 0 <= i < j < |xs| :: xs[i].orderIndex <= xs[j].orderIndex
  }

  /** The modules of `xs` that belong to `courseId`, in their order in `xs`. */
  function OfCourse(xs: seq<Module>, courseId: GoString): (ys: seq<Module>)
    ensures forall i | 0 <= i < |ys| :: ys[i].courseId == courseId
    ensures forall m :: m in ys <==> m in xs && m.courseId == courseId
    ensures forall m: Module | m.courseId == courseId :: multiset(ys)[m] == multiset(xs)[m]
    ensures forall m: Module | m.courseId != courseId :: multiset(ys)[m] == 0
  {
    if xs == [] then []
    else
      var rest := OfCourse(xs[1..], courseId);
      assert xs == [xs[0]] + xs[1..];
      if xs[0].courseId == courseId then [xs[0]] + rest else rest
  }

  /** No module of `xs` has an index below `bound`. */
  predicate AllAtLeast(xs: seq<Module>, bound: int) {
    forall i | 0 <= i < |xs| :: bound <= xs[i].orderIndex
  }

  /** The bound carries over to any sequence holding the same modules. */
  lemma AtLeastByMultiset(xs: seq<Module>, ys: seq<Module>, bound: int)
    requires AllAtLeast(xs, bound) && multiset(ys) == multiset(xs)
    ensures AllAtLeast(ys, bound)
  {
    forall i | 0 <= i < |ys| ensures bound <= ys[i].orderIndex {
      assert ys[i] in multiset(xs);
      var j :| 0 <= j < |xs| && xs[j] == ys[i];
    }
  }

  /** In a sorted sequence nothing after the first module has a smaller index. */
  lemma SortedHeadBound(xs: seq<Module>)
    requires SortedByOrder(xs) && xs != []
    ensures AllAtLeast(xs[1..], xs[0].orderIndex)
  {
    forall i | 0 <= i < |xs[1..]| ensures xs[0].orderIndex <= xs[1..][i].orderIndex {
      assert xs[1..][i] == xs[i + 1];
    }
  }

  /** A module at or above the bound keeps a bounded sequence bounded. */
  lemma AtLeastCons(x: Module, rest: seq<Module>, bound: int)
    requires bound <= x.orderIndex && AllAtLeast(rest, bound)
    ensures AllAtLeast([x] + rest, bound)
  {
    forall i | 0 <= i < |[x] + rest| ensures bound <= ([x] + rest)[i].orderIndex {
      if i > 0 {
        assert ([x] + rest)[i] == rest[i - 1];
      }
    }
  }

  /** A module whose index bounds a sorted sequence from below can go first. */
  lemma SortedCons(x: Module, rest: seq<Module>)
    requires SortedByOrder(rest) && AllAtLeast(rest, x.orderIndex)
    ensures SortedByOrder([x] + rest)
  {
    var ys := [x] + rest;
    forall i, j | 0 <= i < j < |ys| ensures ys[i].orderIndex <= ys[j].orderIndex {
      assert ys[j] == rest[j - 1];
      if i > 0 {
        assert ys[i] == rest[i - 1];
      }
    }
  }

  /** `m` can go in front of a sorted `xs` that starts with a larger index. */
  lemma InsertFront(m: Module, xs: seq<Module>)
    requires SortedByOrder(xs) && (xs == [] || m.orderIndex < xs[0].orderIndex)
    ensures SortedByOrder([m] + xs)
    ensures multiset([m] + xs) == multiset(xs) + multiset{m}
  {
    if xs != [] {
      SortedHeadBound(xs);
      AtLeastCons(xs[0], xs[1..], m.orderIndex);
      assert [xs[0]] + xs[1..] == xs;
    }
    SortedCons(m, xs);
  }

  /** Keeping the first module of `xs` in front of `rest`, where `rest` is
      the tail of `xs` with `m` put in. */
  lemma InsertBehind(m: Module, xs: seq<Module>, rest: seq<Module>)
    requires xs != [] && SortedByOrder(xs) && xs[0].orderIndex <= m.orderIndex
    requires SortedByOrder(rest) && multiset(rest) == multiset(xs[1..]) + multiset{m}
    ensures SortedByOrder([xs[0]] + rest)
    ensures multiset([xs[0]] + rest) == multiset(xs) + multiset{m}
  {
    SortedHeadBound(xs);
    AtLeastCons(m, xs[1..], xs[0].orderIndex);
    AtLeastByMultiset([m] + xs[1..], rest, xs[0].orderIndex);
    SortedCons(xs[0], rest);
    assert xs == [xs[0]] + xs[1..];
  }

  /** Puts `m` into the sorted `xs` after every module whose index is not larger. */
  function InsertByOrder(m: Module, xs: seq<Module>): (ys: seq<Module>)
    requires SortedByOrder(xs)
    ensures SortedByOrder(ys)
    ensures multiset(ys) == multiset(xs) + multiset{m}
  {
    if xs == [] || m.orderIndex < xs[0].orderIndex then
      InsertFront(m, xs);
      [m] + xs
    else
      SortedTail(xs);
      var rest := InsertByOrder(m, xs[1..]);
      InsertBehind(m, xs, rest);
      [xs[0]] + rest
  }

  /** The modules of `xs` in ascending order of index. */
  function SortByOrder(xs: seq<Module>): (ys: seq<Module>)
    ensures SortedByOrder(ys)
    ensures multiset(ys) == multiset(xs)
  {
    if xs == [] then []
    else
      assert xs == [xs[0]] + xs[1..];
      InsertByOrder(xs[0], SortByOrder(xs[1..]))
  }

  /** `ListByCourse`: exactly the stored modules of the course, each as often
      as it is stored, in ascending `orderIndex`. */
  function ListByCourse(s: Repo<Module>, scan: seq<GoString>, courseId: GoString): (r: Result<seq<Module>>)
    requires IsScanOf(scan, s.records)
    ensures s.failing <==> r.Err?
    ensures r.Err? ==> r.error == DatabaseError
    ensures r.Ok? ==> SortedByOrder(r.value)
    ensures r.Ok? ==> forall m :: m in r.value <==> m in s.records.Values && m.courseId == courseId
    ensures r.Ok? ==> multiset(r.value) == multiset(OfCourse(Collect(s.records, scan), courseId))
  {
    if s.failing then Err(DatabaseError)
    else
      var all := Collect(s.records, scan);
      var mine := OfCourse(all, courseId);
      var sorted := SortByOrder(mine);
      assert forall m :: m in sorted <==> m in mine by {
        forall m ensures m in sorted <==> m in mine {
          assert m in sorted <==> m in multiset(sorted);
          assert m in mine <==> m in multiset(mine);
        }
      }
      assert forall m :: m in all <==> m in s.records.Values by {
        forall m ensures m in all <==> m in s.records.Values {
          if m in s.records.Values {
            var k :| k in s.records && s.records[k] == m;
            var i :| 0 <= i < |scan| && scan[i] == k;
            assert all[i] == m;
          }
        }
      }
      Ok(sorted)
  }

  /** Filtering two permuted sequences gives permuted results. */
  lemma OfCoursePermutation(xs1: seq<Module>, xs2: seq<Module>, courseId: GoString)
    requires multiset(xs1) == multiset(xs2)
    ensures multiset(OfCourse(xs1, courseId)) == multiset(OfCourse(xs2, courseId))
  {
    var ys1, ys2 := OfCourse(xs1, courseId), OfCourse(xs2, courseId);
    forall m ensures multiset(ys1)[m] == multiset(ys2)[m] {
    }
  }

  /** `b` with the module at `j` moved to the front.  When every module up
      to `j` has the index of the first, the index sequence is unchanged. */
  function MoveToFront(b: seq<Module>, j: nat): (b2: seq<Module>)
    requires j < |b|
    requires SortedByOrder(b) && b[0].orderIndex == b[j].orderIndex
    ensures |b2| == |b| && b2[0] == b[j]
    ensures multiset(b2) == multiset(b)
    ensures forall p | 0 <= p < |b| :: b2[p].orderIndex == b[p].orderIndex
  {
    var b2 := [b[j]] + b[..j] + b[j + 1..];
    assert forall p | 0 <= p < |b2| :: b2[p].orderIndex == b[p].orderIndex by {
      forall p | 0 <= p < |b2| ensures b2[p].orderIndex == b[p].orderIndex {
        if p == 0 {
        } else if p <= j {
          assert b2[p] == b[p - 1];
        } else {
          assert b2[p] == b[p];
        }
      }
    }
    assert b == b[..j] + [b[j]] + b[j + 1..];
    b2
  }

  lemma SortedTail(xs: seq<Module>)
    requires SortedByOrder(xs) && xs != []
    ensures SortedByOrder(xs[1..])
  {
    forall i, j | 0 <= i < j < |xs[1..]| ensures xs[1..][i].orderIndex <= xs[1..][j].orderIndex {
      assert xs[1..][i] == xs[i + 1] && xs[1..][j] == xs[j + 1];
    }
  }

  lemma SameTails(a: seq<Module>, b: seq<Module>)
    requires a != [] && b != [] && a[0] == b[0] && multiset(a) == multiset(b)
    ensures multiset(a[1..]) == multiset(b[1..])
  {
    assert a == [a[0]] + a[1..];
    assert b == [b[0]] + b[1..];
    assert multiset(a[1..]) == multiset(a) - multiset{a[0]};
    assert multiset(b[1..]) == multiset(b) - multiset{b[0]};
  }

  /** The first module of `a` sits somewhere in its sorted permutation `b`,
      at a position whose index equals that of `b`'s first module. */
  lemma HeadIndexesAgree(a: seq<Module>, b: seq<Module>) returns (j: nat)
    requires SortedByOrder(a) && SortedByOrder(b) && multiset(a) == multiset(b) && a != []
    ensures j < |b| && b[j] == a[0] && b[0].orderIndex == b[j].orderIndex
  {
    assert a[0] in multiset(b);
    j :| 0 <= j < |b| && b[j] == a[0];
    assert b[0] in multiset(a);
    var i :| 0 <= i < |a| && a[i] == b[0];
    assert a[0].orderIndex <= a[i].orderIndex;
    assert b[0].orderIndex <= b[j].orderIndex;
  }

  /** Equal heads and equal tail indexes give equal indexes throughout. */
  lemma IndexesFromTails(a: seq<Module>, b: seq<Module>)
    requires a != [] && |a| == |b| && a[0].orderIndex == b[0].orderIndex
    requires forall p | 0 <= p < |a[1..]| :: a[1..][p].orderIndex == b[1..][p].orderIndex
    ensures forall p | 0 <= p < |a| :: a[p].orderIndex == b[p].orderIndex
  {
    forall p | 0 < p < |a| ensures a[p].orderIndex == b[p].orderIndex {
      assert a[p] == a[1..][p - 1] && b[p] == b[1..][p - 1];
    }
  }

  /** Two sorted sequences holding the same modules agree, position by
      position, on the order index: only modules with equal index can
      change places. */
  lemma {:induction false} SortedSameIndexes(a: seq<Module>, b: seq<Module>)
    requires SortedByOrder(a) && SortedByOrder(b)
    requires multiset(a) == multiset(b)
    ensures |a| == |b|
    ensures forall i | 0 <= i < |a| :: a[i].orderIndex == b[i].orderIndex
    decreases |a|
  {
    assert |a| == |multiset(a)| == |multiset(b)| == |b|;
    if a != [] {
      var j := HeadIndexesAgree(a, b);
      var b2 := MoveToFront(b, j);
      SortedTail(a);
      SortedTail(b2);
      SameTails(a, b2);
      SortedSameIndexes(a[1..], b2[1..]);
      IndexesFromTails(a, b2);
    }
  }

  /** The listing of a course holds the same modules whatever order the map
      is visited in, and its sequence of order indexes is the same: only
      modules that share an index can come out in a different order. */
  lemma ListByCourseIgnoresMapOrder(s: Repo<Module>, scan1: seq<GoString>, scan2: seq<GoString>, courseId: GoString)
    requires IsScanOf(scan1, s.records) && IsScanOf(scan2, s.records) && !s.failing
    ensures var l1, l2 := ListByCourse(s, scan1, courseId).value, ListByCourse(s, scan2, courseId).value;
      && multiset(l1) == multiset(l2)
      && |l1| == |l2|
      && forall i | 0 <= i < |l1| :: l1[i].orderIndex == l2[i].orderIndex
  {
    ListIgnoresMapOrder(s, scan1, scan2);
    OfCoursePermutation(Collect(s.records, scan1), Collect(s.records, scan2), courseId);
    SortedSameIndexes(ListByCourse(s, scan1, courseId).value, ListByCourse(s, scan2, courseId).value);
  }
}
