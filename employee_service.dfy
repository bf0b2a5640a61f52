/** EmployeeService: the query layer between the HTTP facade and the
    downstream client. Every list query works on one snapshot of the
    downstream list, passed in here as `fetched`; the client's single-record
    calls are passed in as functions. */
module Service {
  import opened Wrappers
  import opened EmployeeModel
  import opened Outbound
  import opened Inbound
  import opened Streams
  import opened SalaryOrder

  /** How many names the top-earners query returns at most (`limit(10)`). */
  const TopCount: nat := 10

  /** The not-found error, carrying the id that was looked up. */
  datatype EmployeeNotFound = EmployeeNotFound(id: Uuid)

  /** What deleteById does once it has the snapshot: fail with not-found and
      call nothing, or send one delete-by-name request. */
  datatype DeleteOutcome = NotFound(id: Uuid) | DeleteByName(request: DeleteEmployeeApiRequest)

  /** The downstream delete calls an outcome issues. */
  function DeleteCalls(o: DeleteOutcome): (calls: seq<DeleteEmployeeApiRequest>)
    ensures o.NotFound? ==> calls == []
    ensures o.DeleteByName? ==> calls == [o.request]
  {
    match o
    case NotFound(_) => []
    case DeleteByName(request) => [request]
  }

  /** getAllEmployees: the snapshot, each record re-shaped as an Employee. */
  function GetAllEmployees(fetched: seq<EmployeeApiResponse>): (r: seq<Employee>)
    ensures |r| == |fetched|
    ensures forall i :: 0 <= i < |fetched| ==> r[i] == fetched[i].ToEmployee()
  {
    Map((a: EmployeeApiResponse) => a.ToEmployee(), fetched)
  }

  /** e has the name being searched for; a null search string matches nothing. */
  predicate NameMatches(search: Option<string>, e: Employee): (m: bool)
    ensures search.None? ==> !m
    ensures m <==> search == Some(e.name)
  {
    search.Some? && search.value == e.name
  }

  /** findEmployeeByName: exactly the employees whose name equals the search
      string (exact, case-sensitive), all duplicates, in snapshot order. */
  function FindEmployeeByName(fetched: seq<EmployeeApiResponse>, search: Option<string>): (r: seq<Employee>)
    ensures forall e :: e in r <==> e in GetAllEmployees(fetched) && NameMatches(search, e)
    ensures forall e :: multiset(r)[e] == if NameMatches(search, e) then multiset(GetAllEmployees(fetched))[e] else 0
    ensures IsSubsequence(r, GetAllEmployees(fetched))
    ensures search.None? ==> r == []
  {
    var all := GetAllEmployees(fetched);
    var r := Filter((e: Employee) => NameMatches(search, e), all);
    assert forall e :: e in all && NameMatches(search, e) ==> multiset(r)[e] > 0;
    assert search.None? ==> forall e :: multiset(r)[e] == 0;
    r
  }

  /** getEmployeeById: the downstream record for id, or not-found when the
      downstream answers 404 (modelled by `lookup` returning None). */
  function GetEmployeeById(lookup: Uuid -> Option<EmployeeApiResponse>, id: Uuid): (r: Result<Employee, EmployeeNotFound>)
    ensures r.Failure? <==> lookup(id).None?
    ensures r.Failure? ==> r.error == EmployeeNotFound(id)
    ensures r.Success? ==> r.value == lookup(id).value.ToEmployee()
  {
    match lookup(id)
    case None => Failure(EmployeeNotFound(id))
    case Some(response) => Success(response.ToEmployee())
  }

  /** findHighestSalaryOfEmployee: the largest salary in the snapshot, 0 when
      it is empty. */
  function FindHighestSalaryOfEmployee(fetched: seq<EmployeeApiResponse>): (r: Int32)
    ensures fetched == [] ==> r == 0
    ensures fetched != [] ==> exists i :: 0 <= i < |fetched| && fetched[i].salary == r
    ensures forall i :: 0 <= i < |fetched| ==> fetched[i].salary <= r
  {
    var all := GetAllEmployees(fetched);
    var salaries := Map((e: Employee) => e.salary as int, all);
    match Max(salaries)
    case None => 0
    case Some(m) =>
      assert exists i :: 0 <= i < |salaries| && salaries[i] == m;
      assert forall i :: 0 <= i < |fetched| ==> salaries[i] in salaries;
      m as Int32
  }

  /** The employees behind the top-earner names: the snapshot in stable
      descending-salary order, cut to TopCount. */
  function TopEarners(fetched: seq<EmployeeApiResponse>): (r: seq<Employee>)
    ensures |r| == if |fetched| < TopCount then |fetched| else TopCount
  {
    Limit(SortBySalaryDesc(GetAllEmployees(fetched)), TopCount)
  }

  /** findTopTenEarningEmployeeNames: sort by salary, highest first (ties in
      snapshot order), take the names, keep the first ten. */
  function FindTopTenEarningEmployeeNames(fetched: seq<EmployeeApiResponse>): (r: seq<string>)
    ensures |r| == if |fetched| < TopCount then |fetched| else TopCount
    ensures forall i :: 0 <= i < |r| ==> r[i] == TopEarners(fetched)[i].name
  {
    var ranked := SortBySalaryDesc(GetAllEmployees(fetched));
    var names := Limit(Map((e: Employee) => e.name, ranked), TopCount);
    assert forall i :: 0 <= i < |names| ==> names[i] == ranked[i].name;
    names
  }

  /** saveEmployee: sends the downstream create call the body built by
      CreateEmployeeApiRequest.From, and re-shapes what comes back. */
  function SaveEmployee(create: CreateEmployeeApiRequest -> EmployeeApiResponse, request: CreateEmployeeRequest): (r: Employee)
    ensures r == create(CreateEmployeeApiRequest.From(request)).ToEmployee()
  {
    var apiRequest := CreateEmployeeApiRequest.From(request);
    create(apiRequest).ToEmployee()
  }

  /** deleteById: looks the id up in the snapshot; the first employee with
      that id gives the name to delete by, and no match means not-found. */
  function DeleteById(fetched: seq<EmployeeApiResponse>, id: Uuid): (r: DeleteOutcome)
    ensures r.NotFound? <==> forall i :: 0 <= i < |fetched| ==> fetched[i].id != id
    ensures r.NotFound? ==> r.id == id
    ensures r.DeleteByName? ==>
      (exists k :: 0 <= k < |fetched| && fetched[k].id == id && r.request.name == fetched[k].name
        && forall j :: 0 <= j < k ==> fetched[j].id != id)
  {
    var all := GetAllEmployees(fetched);
    match FindFirst((e: Employee) => e.id == id, all)
    case Some(e) => DeleteByName(DeleteEmployeeApiRequest(e.name))
    case None => NotFound(id)
  }

  /** How deleteById returns once its one call is made: normally, whatever
      boolean the downstream answered, or with not-found. */
  function DeleteResult(o: DeleteOutcome, deleted: bool): (r: Result<(), EmployeeNotFound>)
    ensures r.Failure? <==> o.NotFound?
    ensures o.NotFound? ==> r.error == EmployeeNotFound(o.id)
  {
    match o
    case NotFound(id) => Failure(EmployeeNotFound(id))
    case DeleteByName(_) => Success(())
  }

  /** The top earners are in non-increasing salary order and are drawn from
      the snapshot, each at most as often as it occurs there. */
  lemma TopEarnersSortedFromSnapshot(fetched: seq<EmployeeApiResponse>)
    ensures SortedBySalaryDesc(TopEarners(fetched))
    ensures multiset(TopEarners(fetched)) <= multiset(GetAllEmployees(fetched))
  {
    var all := GetAllEmployees(fetched);
    var ranked := SortBySalaryDesc(all);
    var top := TopEarners(fetched);
    SortSorted(all);
    SortPermutes(all);
    assert ranked == top + ranked[|top|..];
  }

  /** Nobody left out of the top earners earns more than anybody kept. */
  lemma TopEarnersOutrankTheRest(fetched: seq<EmployeeApiResponse>)
    ensures forall e, f :: (e in multiset(GetAllEmployees(fetched)) - multiset(TopEarners(fetched)) && f in TopEarners(fetched))
                           ==> e.salary <= f.salary
  {
    var all := GetAllEmployees(fetched);
    var ranked := SortBySalaryDesc(all);
    var top := TopEarners(fetched);
    var rest := ranked[|top|..];
    SortSorted(all);
    SortPermutes(all);
    assert ranked == top + rest;
    assert multiset(all) - multiset(top) == multiset(rest);
    SortedSplit(ranked, |top|);
    assert rest == ranked[|top|..] && top == ranked[..|top|];
  }

  /** The top earners are the first TopCount entries of any ordering of the
      snapshot that is sorted by descending salary and keeps equal salaries
      in snapshot order: the order a stable sort produces. */
  lemma TopEarnersFollowStableOrder(fetched: seq<EmployeeApiResponse>, r: seq<Employee>)
    requires SortedBySalaryDesc(r) && SameTies(r, GetAllEmployees(fetched))
    ensures TopEarners(fetched) == Limit(r, TopCount)
  {
    SortCharacterized(GetAllEmployees(fetched), r);
  }

  /** Every top-earner name is the name of an employee in the snapshot. */
  lemma TopTenNamesComeFromSnapshot(fetched: seq<EmployeeApiResponse>)
    ensures forall i :: 0 <= i < |FindTopTenEarningEmployeeNames(fetched)| ==>
      exists j :: 0 <= j < |fetched| && FindTopTenEarningEmployeeNames(fetched)[i] == fetched[j].name
  {
    var all := GetAllEmployees(fetched);
    var names := FindTopTenEarningEmployeeNames(fetched);
    TopEarnersSortedFromSnapshot(fetched);
    forall i | 0 <= i < |names|
      ensures exists j :: 0 <= j < |fetched| && names[i] == fetched[j].name
    {
      var e := TopEarners(fetched)[i];
      assert e in multiset(TopEarners(fetched));
      assert e in all;
      var j :| 0 <= j < |all| && all[j] == e;
      assert names[i] == fetched[j].name;
    }
  }

  /** When salaries rise strictly along the snapshot, the top earners are its
      last TopCount entries, last first. */
  lemma TopTenOfAscendingSalaries(fetched: seq<EmployeeApiResponse>)
    requires forall i, j :: 0 <= i < j < |fetched| ==> fetched[i].salary < fetched[j].salary
    ensures forall k :: 0 <= k < |FindTopTenEarningEmployeeNames(fetched)| ==>
      FindTopTenEarningEmployeeNames(fetched)[k] == fetched[|fetched| - 1 - k].name
  {
    var all := GetAllEmployees(fetched);
    SortOfAscending(all);
    forall k | 0 <= k < |FindTopTenEarningEmployeeNames(fetched)|
      ensures FindTopTenEarningEmployeeNames(fetched)[k] == fetched[|fetched| - 1 - k].name
    {
      ReverseAt(all, k);
    }
  }

  /** The highest salary is the salary of the first top earner. */
  lemma HighestSalaryLeadsTopEarners(fetched: seq<EmployeeApiResponse>)
    requires fetched != []
    ensures FindHighestSalaryOfEmployee(fetched) == TopEarners(fetched)[0].salary
  {
    var all := GetAllEmployees(fetched);
    var ranked := SortBySalaryDesc(all);
    var m := FindHighestSalaryOfEmployee(fetched);
    SortSorted(all);
    SortPermutes(all);
    assert ranked[0] in multiset(all);
    var i :| 0 <= i < |all| && all[i] == ranked[0];
    assert m >= ranked[0].salary;
    var j :| 0 <= j < |fetched| && fetched[j].salary == m;
    assert all[j] in multiset(ranked);
    var k :| 0 <= k < |ranked| && ranked[k] == all[j];
    assert ranked[0].salary >= m;
  }

  /** deleteById issues exactly one delete call when the id is in the snapshot,
      and none when it is not. */
  lemma DeleteCallsAtMostOnce(fetched: seq<EmployeeApiResponse>, id: Uuid)
    ensures |DeleteCalls(DeleteById(fetched, id))| == if exists i :: 0 <= i < |fetched| && fetched[i].id == id then 1 else 0
  {
  }

  /** deleteById completes normally exactly when the id is in the snapshot,
      whatever the downstream delete answered. */
  lemma DeleteSucceedsIffPresent(fetched: seq<EmployeeApiResponse>, id: Uuid, deleted: bool)
    ensures DeleteResult(DeleteById(fetched, id), deleted).Success? <==> exists i :: 0 <= i < |fetched| && fetched[i].id == id
  {
  }

  /** If the downstream creates the employee it was asked to, saveEmployee
      returns an employee with the caller's name, salary, age and title. */
  lemma SaveEmployeeKeepsRequest(create: CreateEmployeeApiRequest -> EmployeeApiResponse, request: CreateEmployeeRequest)
    requires forall a :: create(a).name == a.name && create(a).salary == a.salary && create(a).age == a.age && create(a).title == a.title
    ensures SaveEmployee(create, request).name == request.name
    ensures SaveEmployee(create, request).salary == request.salary
    ensures SaveEmployee(create, request).age == request.age
    ensures SaveEmployee(create, request).title == request.title
  {
  }

  /** Two downstream employees paid 381603 and 259185: the highest salary is
      381603. */
  lemma HighestOfTwoEmployees(a: EmployeeApiResponse, b: EmployeeApiResponse)
    requires a.salary == 381603 && b.salary == 259185
    ensures FindHighestSalaryOfEmployee([a, b]) == 381603
  {
    var m := FindHighestSalaryOfEmployee([a, b]);
    assert [a, b][0].salary <= m;
  }

  /** Searching for one employee's full name returns that record only; a
      prefix of the name matches nothing. */
  lemma SearchIsExactMatch(a: EmployeeApiResponse, b: EmployeeApiResponse)
    requires a.name == "Russell DuBuque V" && b.name == "Lindsay Kuhn"
    ensures FindEmployeeByName([a, b], Some("Russell DuBuque V")) == [a.ToEmployee()]
    ensures FindEmployeeByName([a, b], Some("Russell")) == []
  {
    var all := GetAllEmployees([a, b]);
    assert all == [a.ToEmployee(), b.ToEmployee()];
    assert all[1..] == [b.ToEmployee()] && all[1..][1..] == [];
    assert "Russell" != a.name && "Russell" != b.name by { assert |"Russell"| != |a.name| && |"Russell"| != |b.name|; }
  }
}
