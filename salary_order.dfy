/** `sorted(Comparator.comparingInt(Employee::salary).reversed())` on an
    ordered stream: highest salary first, and, since the stream sort is
    stable, employees with equal salaries kept in their incoming order. */
module SalaryOrder {
  import opened EmployeeModel

  /** Non-increasing salary from front to back. */
  ghost predicate SortedBySalaryDesc(s: seq<Employee>)
  {
    forall i, j :: 0 <= i < j < |s| ==> s[i].salary >= s[j].salary
  }

  /** The employees of s paid exactly v, in their order in s. */
  function WithSalary(s: seq<Employee>, v: Int32): (r: seq<Employee>)
    ensures |r| <= |s|
  {
    if s == [] then []
    else (if s[0].salary == v then [s[0]] else []) + WithSalary(s[1..], v)
  }

  /** a and b list the employees of every salary in the same order: what a
      stable sort keeps of its input. */
  ghost predicate SameTies(a: seq<Employee>, b: seq<Employee>)
  {
    forall v :: WithSalary(a, v) == WithSalary(b, v)
  }

  /** Puts e in front of the first employee paid no more than e. */
  function Insert(e: Employee, t: seq<Employee>): (r: seq<Employee>)
    ensures |r| == |t| + 1
  {
    if t == [] || e.salary >= t[0].salary then [e] + t
    else [t[0]] + Insert(e, t[1..])
  }

  /** Insertion sort from the back: the stable descending-salary order. */
  function SortBySalaryDesc(s: seq<Employee>): (r: seq<Employee>)
    ensures |r| == |s|
  {
    if s == [] then [] else Insert(s[0], SortBySalaryDesc(s[1..]))
  }

  /** Inserting adds exactly the one employee. */
  lemma {:induction false} InsertPermutes(e: Employee, t: seq<Employee>)
    ensures multiset(Insert(e, t)) == multiset(t) + multiset{e}
  {
    if t != [] && e.salary < t[0].salary {
      InsertPermutes(e, t[1..]);
      assert t == [t[0]] + t[1..];
    }
  }

  /** Inserting into a descending list keeps it descending. */
  lemma {:induction false} InsertSorted(e: Employee, t: seq<Employee>)
    requires SortedBySalaryDesc(t)
    ensures SortedBySalaryDesc(Insert(e, t))
  {
    if t != [] && e.salary < t[0].salary {
      var rest := Insert(e, t[1..]);
      InsertSorted(e, t[1..]);
      InsertPermutes(e, t[1..]);
      forall x | x in rest
        ensures t[0].salary >= x.salary
      {
        assert x in multiset(rest);
        if x != e {
          assert x in multiset(t[1..]);
          var k :| 1 <= k < |t| && t[k] == x;
        }
      }
      assert Insert(e, t) == [t[0]] + rest;
      forall i, j | 0 <= i < j < |Insert(e, t)|
        ensures Insert(e, t)[i].salary >= Insert(e, t)[j].salary
      {
        if i == 0 {
          assert Insert(e, t)[j] == rest[j - 1];
          assert rest[j - 1] in rest;
        }
      }
    }
  }

  /** WithSalary unfolded on a list with a known first element. */
  lemma WithSalaryCons(x: Employee, s: seq<Employee>, v: Int32)
    ensures WithSalary([x] + s, v) == (if x.salary == v then [x] else []) + WithSalary(s, v)
  {
    assert ([x] + s)[1..] == s;
  }

  /** The inserted employee lands before everyone already there with its salary. */
  lemma {:induction false} InsertKeepsTies(e: Employee, t: seq<Employee>, v: Int32)
    ensures WithSalary(Insert(e, t), v) == (if e.salary == v then [e] else []) + WithSalary(t, v)
  {
    if t == [] || e.salary >= t[0].salary {
      WithSalaryCons(e, t, v);
    } else {
      var rest := Insert(e, t[1..]);
      var tail := WithSalary(t[1..], v);
      InsertKeepsTies(e, t[1..], v);
      WithSalaryCons(t[0], rest, v);
      assert t == [t[0]] + t[1..];
      WithSalaryCons(t[0], t[1..], v);
      if e.salary == v {
        assert WithSalary(Insert(e, t), v) == [e] + tail;
      } else {
        assert WithSalary(Insert(e, t), v) == (if t[0].salary == v then [t[0]] else []) + tail;
      }
    }
  }

  /** The sort is a permutation of its input. */
  lemma {:induction false} SortPermutes(s: seq<Employee>)
    ensures multiset(SortBySalaryDesc(s)) == multiset(s)
  {
    if s != [] {
      SortPermutes(s[1..]);
      InsertPermutes(s[0], SortBySalaryDesc(s[1..]));
      assert s == [s[0]] + s[1..];
    }
  }

  /** The sort puts salaries in non-increasing order. */
  lemma {:induction false} SortSorted(s: seq<Employee>)
    ensures SortedBySalaryDesc(SortBySalaryDesc(s))
  {
    if s != [] {
      SortSorted(s[1..]);
      InsertSorted(s[0], SortBySalaryDesc(s[1..]));
    }
  }

  /** The sort is stable: equal salaries keep their incoming order. */
  lemma {:induction false} SortStable(s: seq<Employee>)
    ensures SameTies(SortBySalaryDesc(s), s)
  {
    if s != [] {
      SortStable(s[1..]);
      forall v
        ensures WithSalary(SortBySalaryDesc(s), v) == WithSalary(s, v)
      {
        InsertKeepsTies(s[0], SortBySalaryDesc(s[1..]), v);
      }
    }
  }

  /** A salary that occurs in a sorted sequence is at most its first salary. */
  lemma {:induction false} TiesBoundedByHead(s: seq<Employee>, v: Int32)
    requires SortedBySalaryDesc(s)
    requires WithSalary(s, v) != []
    ensures s != [] && v <= s[0].salary
  {
    if s[0].salary != v {
      TiesBoundedByHead(s[1..], v);
    }
  }

  /** Two sequences with the same ties are empty together. */
  lemma EmptyTogether(a: seq<Employee>, b: seq<Employee>)
    requires SameTies(a, b)
    ensures a == [] <==> b == []
  {
    if a != [] {
      assert WithSalary(a, a[0].salary) != [];
      assert WithSalary(b, a[0].salary) != [];
    }
    if b != [] {
      assert WithSalary(b, b[0].salary) != [];
      assert WithSalary(a, b[0].salary) != [];
    }
  }

  /** Two sorted sequences with the same ties start alike and agree on the rest. */
  lemma HeadsAgree(a: seq<Employee>, b: seq<Employee>)
    requires SortedBySalaryDesc(a) && SortedBySalaryDesc(b) && SameTies(a, b)
    requires a != [] && b != []
    ensures a[0] == b[0] && SameTies(a[1..], b[1..])
  {
    var v, w := a[0].salary, b[0].salary;
    assert WithSalary(a, v) == [a[0]] + WithSalary(a[1..], v);
    assert WithSalary(b, w) == [b[0]] + WithSalary(b[1..], w);
    TiesBoundedByHead(b, v);
    TiesBoundedByHead(a, w);
    assert WithSalary(a, v)[0] == a[0] && WithSalary(b, v)[0] == b[0];
    forall u
      ensures WithSalary(a[1..], u) == WithSalary(b[1..], u)
    {
      if u == v {
        assert WithSalary(a, u)[1..] == WithSalary(a[1..], u);
        assert WithSalary(b, u)[1..] == WithSalary(b[1..], u);
      } else {
        assert WithSalary(a, u) == WithSalary(a[1..], u);
        assert WithSalary(b, u) == WithSalary(b[1..], u);
      }
    }
  }

  /** A sorted order that keeps every salary's ties is unique. */
  lemma {:induction false} SortedTiesUnique(a: seq<Employee>, b: seq<Employee>)
    requires SortedBySalaryDesc(a) && SortedBySalaryDesc(b) && SameTies(a, b)
    ensures a == b
    decreases |a|
  {
    EmptyTogether(a, b);
    if a != [] {
      HeadsAgree(a, b);
      SortedTiesUnique(a[1..], b[1..]);
      assert a == [a[0]] + a[1..] && b == [b[0]] + b[1..];
    }
  }

  /** SortBySalaryDesc is the one stable descending-salary order of s: any
      ordering that is sorted and keeps the ties of s is it. */
  lemma SortCharacterized(s: seq<Employee>, r: seq<Employee>)
    requires SortedBySalaryDesc(r) && SameTies(r, s)
    ensures r == SortBySalaryDesc(s)
  {
    SortSorted(s);
    SortStable(s);
    SortedTiesUnique(r, SortBySalaryDesc(s));
  }

  /** In a sorted sequence, everyone after position k earns no more than
      anyone before it. */
  lemma SortedSplit(s: seq<Employee>, k: nat)
    requires SortedBySalaryDesc(s) && k <= |s|
    ensures forall e, f :: e in s[k..] && f in s[..k] ==> e.salary <= f.salary
  {
    forall e, f | e in s[k..] && f in s[..k]
      ensures e.salary <= f.salary
    {
      var i :| k <= i < |s| && s[i] == e;
      var j :| 0 <= j < k && s[j] == f;
    }
  }

  /** Reverses a sequence. */
  function Reverse<T>(s: seq<T>): (r: seq<T>)
    ensures |r| == |s|
  {
    if s == [] then [] else Reverse(s[1..]) + [s[0]]
  }

  /** Position k of the reversal is position |s| - 1 - k of s. */
  lemma {:induction false} ReverseAt<T>(s: seq<T>, k: nat)
    requires k < |s|
    ensures Reverse(s)[k] == s[|s| - 1 - k]
  {
    if k < |s| - 1 {
      ReverseAt(s[1..], k);
    }
  }

  /** An employee paid less than everyone goes to the back. */
  lemma {:induction false} InsertLowest(e: Employee, t: seq<Employee>)
    requires forall i :: 0 <= i < |t| ==> e.salary < t[i].salary
    ensures Insert(e, t) == t + [e]
  {
    if t != [] {
      InsertLowest(e, t[1..]);
      assert t == [t[0]] + t[1..];
    }
  }

  /** With strictly increasing salaries the sort simply reverses the list. */
  lemma {:induction false} SortOfAscending(s: seq<Employee>)
    requires forall i, j :: 0 <= i < j < |s| ==> s[i].salary < s[j].salary
    ensures SortBySalaryDesc(s) == Reverse(s)
  {
    if s != [] {
      SortOfAscending(s[1..]);
      forall i | 0 <= i < |Reverse(s[1..])|
        ensures s[0].salary < Reverse(s[1..])[i].salary
      {
        ReverseAt(s[1..], i);
      }
      InsertLowest(s[0], Reverse(s[1..]));
    }
  }
}
