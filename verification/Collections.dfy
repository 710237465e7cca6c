/** Facts about sets, queues and stable sorting that several layers share. */
module Collections {

  /** An injection bounds one finite set by another. */
  lemma {:induction false} InjectionBound<A, B>(xs: set<A>, ys: set<B>, f: A -> B)
    requires forall x | x in xs :: f(x) in ys
    requires forall x, x' | x in xs && x' in xs && f(x) == f(x') :: x == x'
    ensures |xs| <= |ys|
    decreases |xs|
  {
    if xs != {} {
      var x :| x in xs;
      InjectionBound(xs - {x}, ys - {f(x)}, f);
    }
  }

  lemma Smaller<T>(xs: set<T>, ys: set<T>)
    requires xs <= ys
    ensures |xs| <= |ys|
  {
    assert ys == xs + (ys - xs);
  }

  // ----- queues that enumerate a set

  ghost predicate NoRepeats<T(!new)>(s: seq<T>) {
    forall i, j | 0 <= i < j < |s| :: s[i] != s[j]
  }

  ghost predicate Enumerates<T(!new)>(s: seq<T>, members: set<T>) {
    NoRepeats(s) && forall x :: x in s <==> x in members
  }

  /** The queue without one member, as `retain(|x| x != member)` leaves it. */
  function Without<T(==)>(s: seq<T>, member: T): seq<T> {
    if s == [] then []
    else if s[0] == member then Without(s[1..], member)
    else [s[0]] + Without(s[1..], member)
  }

  lemma {:induction false} WithoutMembers<T(!new)>(s: seq<T>, member: T)
    ensures forall x :: x in Without(s, member) <==> x in s && x != member
    ensures NoRepeats(s) ==> NoRepeats(Without(s, member))
  {
    if s != [] {
      WithoutMembers(s[1..], member);
      assert s == [s[0]] + s[1..];
      if NoRepeats(s) {
        assert NoRepeats(s[1..]);
        assert s[0] !in s[1..];
      }
    }
  }

  lemma {:induction false} WithoutAbsent<T(!new)>(s: seq<T>, member: T)
    requires member !in s
    ensures Without(s, member) == s
  {
    if s != [] {
      WithoutAbsent(s[1..], member);
    }
  }

  lemma {:induction false} EnumerationSize<T(!new)>(s: seq<T>, members: set<T>)
    requires Enumerates(s, members)
    ensures |s| == |members|
  {
    if s == [] {
      assert members == {};
    } else {
      assert s == [s[0]] + s[1..];
      EnumerationSize(s[1..], members - {s[0]});
    }
  }

  lemma EnumeratesWithout<T(!new)>(s: seq<T>, members: set<T>, member: T)
    requires Enumerates(s, members)
    ensures Enumerates(Without(s, member), members - {member})
  {
    WithoutMembers(s, member);
  }

  lemma EnumeratesAppend<T(!new)>(s: seq<T>, members: set<T>, member: T)
    requires Enumerates(s, members) && member !in members
    ensures Enumerates(s + [member], members + {member})
  {
  }

  lemma EnumeratesTail<T(!new)>(s: seq<T>, members: set<T>)
    requires Enumerates(s, members) && s != []
    ensures s[0] in members && Enumerates(s[1..], members - {s[0]})
  {
    assert s == [s[0]] + s[1..];
  }

  // ----- stable sorting

  /** Insert in front of the first element that is not ordered before `x`. */
  function InsertSorted<T>(le: (T, T) -> bool, x: T, s: seq<T>): seq<T> {
    if s == [] || le(x, s[0]) then [x] + s else [s[0]] + InsertSorted(le, x, s[1..])
  }

  /** A stable sort, as `sort_by_key` is. */
  function StableSort<T>(le: (T, T) -> bool, s: seq<T>): seq<T> {
    if s == [] then [] else InsertSorted(le, s[0], StableSort(le, s[1..]))
  }

  ghost predicate SortedBy<T>(le: (T, T) -> bool, s: seq<T>) {
    forall i, j | 0 <= i < j < |s| :: le(s[i], s[j])
  }

  ghost predicate TotalPreorder<T(!new)>(le: (T, T) -> bool) {
    && (forall x, y :: le(x, y) || le(y, x))
    && (forall x, y, z :: le(x, y) && le(y, z) ==> le(x, z))
  }

  lemma {:induction false} InsertMembers<T>(le: (T, T) -> bool, x: T, s: seq<T>)
    ensures multiset(InsertSorted(le, x, s)) == multiset{x} + multiset(s)
  {
    if s != [] && !le(x, s[0]) {
      InsertMembers(le, x, s[1..]);
      assert s == [s[0]] + s[1..];
    }
  }

  lemma {:induction false} SortMembers<T>(le: (T, T) -> bool, s: seq<T>)
    ensures multiset(StableSort(le, s)) == multiset(s)
    ensures |StableSort(le, s)| == |s|
    ensures forall x :: x in StableSort(le, s) <==> x in s
  {
    if s != [] {
      SortMembers(le, s[1..]);
      InsertMembers(le, s[0], StableSort(le, s[1..]));
      assert s == [s[0]] + s[1..];
    }
    assert |multiset(StableSort(le, s))| == |multiset(s)|;
    assert forall x :: x in StableSort(le, s) <==> x in multiset(StableSort(le, s));
    assert forall x :: x in s <==> x in multiset(s);
  }

  lemma {:induction false} InsertKeepsSorted<T(!new)>(le: (T, T) -> bool, x: T, s: seq<T>)
    requires TotalPreorder(le) && SortedBy(le, s)
    ensures SortedBy(le, InsertSorted(le, x, s))
  {
    if s != [] && !le(x, s[0]) {
      InsertKeepsSorted(le, x, s[1..]);
      var rest := InsertSorted(le, x, s[1..]);
      InsertMembers(le, x, s[1..]);
      forall j | 0 <= j < |rest| ensures le(s[0], rest[j]) {
        assert rest[j] in multiset(rest);
        if rest[j] != x {
          assert rest[j] in s[1..];
        }
      }
    }
  }

  lemma {:induction false} SortSorts<T(!new)>(le: (T, T) -> bool, s: seq<T>)
    requires TotalPreorder(le)
    ensures SortedBy(le, StableSort(le, s))
  {
    if s != [] {
      SortSorts(le, s[1..]);
      InsertKeepsSorted(le, s[0], StableSort(le, s[1..]));
    }
  }

  /** What is sorted already stays as it is. */
  lemma {:induction false} SortOfSorted<T>(le: (T, T) -> bool, s: seq<T>)
    requires SortedBy(le, s)
    ensures StableSort(le, s) == s
  {
    if s != [] {
      SortOfSorted(le, s[1..]);
    }
  }

  // ----- stability

  function Chosen<T>(s: seq<T>, p: T -> bool): seq<T> {
    if s == [] then [] else (if p(s[0]) then [s[0]] else []) + Chosen(s[1..], p)
  }

  lemma {:induction false} InsertIsStable<T(!new)>(le: (T, T) -> bool, x: T, s: seq<T>, p: T -> bool)
    requires forall y | y in s && p(x) && p(y) :: le(x, y)
    ensures Chosen(InsertSorted(le, x, s), p) == (if p(x) then [x] else []) + Chosen(s, p)
  {
    hide Chosen;
    if s != [] && !le(x, s[0]) {
      InsertIsStable(le, x, s[1..], p);
      ChosenFront(s[0], InsertSorted(le, x, s[1..]), p);
      ChosenFront(s[0], s[1..], p);
      assert s == [s[0]] + s[1..];
    } else {
      ChosenFront(x, s, p);
    }
  }

  lemma ChosenFront<T>(x: T, s: seq<T>, p: T -> bool)
    ensures Chosen([x] + s, p) == (if p(x) then [x] else []) + Chosen(s, p)
  {
    assert ([x] + s)[1..] == s;
  }

  /** Elements that are equal in the order keep their own order. */
  lemma {:induction false} SortIsStable<T(!new)>(le: (T, T) -> bool, s: seq<T>, p: T -> bool)
    requires forall x, y | x in s && y in s && p(x) && p(y) :: le(x, y)
    ensures Chosen(StableSort(le, s), p) == Chosen(s, p)
  {
    if s != [] {
      SortIsStable(le, s[1..], p);
      SortMembers(le, s[1..]);
      forall y | y in StableSort(le, s[1..]) ensures y in s[1..] {
        assert y in multiset(StableSort(le, s[1..]));
      }
      InsertIsStable(le, s[0], StableSort(le, s[1..]), p);
    }
  }
}
