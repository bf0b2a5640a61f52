# Employee query layer: a Dafny model

This project models the query layer of an HTTP facade over a downstream
employee-records service. The layer is `EmployeeService`, with the two record
mappings it uses: `EmployeeApiResponse.toEmployee` (downstream record to the
facade's `Employee`) and `CreateEmployeeApiRequest.from` (the facade's create
payload to the downstream create body).

Each list query of the service fetches the downstream list once and then works
on that snapshot. In the model the snapshot is an input
`fetched: seq<EmployeeApiResponse>`. The client's single-record calls become
function parameters:
- `lookup: Uuid -> Option<EmployeeApiResponse>` for find-by-id, where `None` is the downstream's 404;
- `create: CreateEmployeeApiRequest -> EmployeeApiResponse` for create.

`deleteById` returns a `DeleteOutcome`: either `NotFound(id)`, or
`DeleteByName(request)`, the one delete call it sends downstream. This replaces
an exception plus a side-effecting call. `DeleteResult` then says how the
service method returns once that call has answered.

Modules, one per source file or library concern:
- `Wrappers` (`wrappers.dfy`): `Option` and `Result`.
- `EmployeeModel` (`employee.dfy`): `Uuid` (an opaque pair of 64-bit halves compared by equality), `Int32` (Java's `int` range), `Employee`.
- `Outbound` (`employee_api_response.dfy`): `EmployeeApiResponse` and `ToEmployee`.
- `Inbound` (`create_employee_api_request.dfy`): `CreateEmployeeRequest`, `CreateEmployeeApiRequest.From`, `DeleteEmployeeApiRequest`.
- `Streams` (`streams.dfy`): the `java.util.stream` steps the pipelines use (`map`, `filter`, `limit`, `findFirst`, `max`) on a sequential, ordered stream.
- `SalaryOrder` (`salary_order.dfy`): `sorted(comparingInt(salary).reversed())`. Java's stream sort is stable on an ordered stream, so it is modelled as a stable insertion sort. It is proved sorted, a permutation, and stable. It is also proved to be the only order with those properties.
- `Service` (`employee_service.dfy`): the seven service operations and the lemmas about them.

Two points about what the code does:
- Nothing in the service code requires salaries to be non-negative, so they range over all of `Int32`. A non-empty list of negative salaries has a negative maximum, not 0.
- `getAllEmployees` keeps the downstream order, and so does the model, although the unit tests compare its results in any order.

## Model

| member | source | states |
|---|---|---|
| `Outbound.EmployeeApiResponse.ToEmployee` | api/src/main/java/com/reliaquest/api/client/outbound/EmployeeApiResponse.java:17-21 | the Employee has the response's id, name, salary, age, title and email |
| `Outbound.ToEmployeeRoundTrip` | api/src/main/java/com/reliaquest/api/client/outbound/EmployeeApiResponse.java:8-21 | reading the Employee back as a response gives the original response, so nothing is lost |
| `Outbound.ToEmployeeInjective` | api/src/main/java/com/reliaquest/api/client/outbound/EmployeeApiResponse.java:8-21 | two responses that map to the same Employee are equal |
| `Inbound.CreateEmployeeApiRequest.From` | api/src/main/java/com/reliaquest/api/client/inbound/CreateEmployeeApiRequest.java:10-17 | the downstream body has the caller's name, salary, age and title |
| `Inbound.FromIsBijective` | api/src/main/java/com/reliaquest/api/client/inbound/CreateEmployeeApiRequest.java:5-17 | From is one-to-one and every downstream body is the image of some payload, so the body carries exactly those four fields and nothing else (no id, no email) |
| `Streams.Map` | api/src/main/java/com/reliaquest/api/service/EmployeeService.java:28-31 | same length; element i of the result is f of element i |
| `Streams.Filter` | api/src/main/java/com/reliaquest/api/service/EmployeeService.java:35-38 | every kept element satisfies p; each satisfying element is kept as often as it occurs and others never; the result is a subsequence (order kept) |
| `Streams.Limit` | api/src/main/java/com/reliaquest/api/service/EmployeeService.java:60 | the result is the prefix of length min(n, length) |
| `Streams.IndexOfFirst` | api/src/main/java/com/reliaquest/api/service/EmployeeService.java:71-75 | none iff no element matches; otherwise the index of a match before which nothing matches |
| `Streams.FindFirst` | api/src/main/java/com/reliaquest/api/service/EmployeeService.java:71-75 | empty iff nothing matches; otherwise the element at the first matching position |
| `Streams.Max` | api/src/main/java/com/reliaquest/api/service/EmployeeService.java:50-51 | empty iff the input is empty; otherwise an element of the input that is at least every element |
| `SalaryOrder.SortBySalaryDesc` | api/src/main/java/com/reliaquest/api/service/EmployeeService.java:58 | same length as the input; SortSorted, SortPermutes, SortStable and SortCharacterized prove it is the stable descending-salary order |
| `SalaryOrder.InsertPermutes` | api/src/main/java/com/reliaquest/api/service/EmployeeService.java:58 | inserting adds exactly the one employee |
| `SalaryOrder.InsertSorted` | api/src/main/java/com/reliaquest/api/service/EmployeeService.java:58 | inserting into a descending-salary list keeps it descending |
| `SalaryOrder.InsertKeepsTies` | api/src/main/java/com/reliaquest/api/service/EmployeeService.java:58 | the inserted employee goes before every employee already there with the same salary |
| `SalaryOrder.SortPermutes` | api/src/main/java/com/reliaquest/api/service/EmployeeService.java:58 | the sorted list is a permutation of the input |
| `SalaryOrder.SortSorted` | api/src/main/java/com/reliaquest/api/service/EmployeeService.java:58 | the sorted list has non-increasing salaries |
| `SalaryOrder.SortStable` | api/src/main/java/com/reliaquest/api/service/EmployeeService.java:58 | for every salary, the employees with that salary appear in input order (the sort is stable) |
| `SalaryOrder.SortedTiesUnique` | api/src/main/java/com/reliaquest/api/service/EmployeeService.java:58 | two descending-salary lists with the same order within each salary are equal |
| `SalaryOrder.SortCharacterized` | api/src/main/java/com/reliaquest/api/service/EmployeeService.java:58 | any descending-salary ordering that keeps the input's order within each salary is the sort's result |
| `SalaryOrder.SortedSplit` | api/src/main/java/com/reliaquest/api/service/EmployeeService.java:58-60 | in a sorted list, everyone after a cut earns no more than anyone before it |
| `SalaryOrder.SortOfAscending` | api/src/main/java/com/reliaquest/api/service/EmployeeService.java:58 | with strictly rising salaries the sort reverses the list |
| `Service.GetAllEmployees` | api/src/main/java/com/reliaquest/api/service/EmployeeService.java:27-32 | same length and order as the snapshot; element i is toEmployee of snapshot element i |
| `Service.NameMatches` | api/src/main/java/com/reliaquest/api/service/EmployeeService.java:37 | a null search string matches nothing; otherwise exact, case-sensitive equality with the name |
| `Service.FindEmployeeByName` | api/src/main/java/com/reliaquest/api/service/EmployeeService.java:34-39 | an employee is in the result iff it is in the snapshot and its name equals the search string exactly; every duplicate is kept, in snapshot order; a null search string gives the empty list |
| `Service.GetEmployeeById` | api/src/main/java/com/reliaquest/api/service/EmployeeService.java:41-45 | not-found for id exactly when the downstream reports it; otherwise toEmployee of the downstream record for that id |
| `Service.FindHighestSalaryOfEmployee` | api/src/main/java/com/reliaquest/api/service/EmployeeService.java:47-53 | 0 for an empty snapshot; otherwise a salary of some snapshot employee that is at least every salary in it |
| `Service.TopEarners` | api/src/main/java/com/reliaquest/api/service/EmployeeService.java:56-60 | min(10, snapshot length) employees |
| `Service.FindTopTenEarningEmployeeNames` | api/src/main/java/com/reliaquest/api/service/EmployeeService.java:55-62 | min(10, snapshot length) names; name i is the name of top earner i |
| `Service.TopEarnersSortedFromSnapshot` | api/src/main/java/com/reliaquest/api/service/EmployeeService.java:55-62 | the top earners are in non-increasing salary order and are drawn from the snapshot |
| `Service.TopEarnersOutrankTheRest` | api/src/main/java/com/reliaquest/api/service/EmployeeService.java:55-62 | every employee left out earns no more than every employee kept |
| `Service.TopEarnersFollowStableOrder` | api/src/main/java/com/reliaquest/api/service/EmployeeService.java:55-62 | the top earners are the first ten of any descending-salary ordering that keeps equal salaries in snapshot order |
| `Service.TopTenNamesComeFromSnapshot` | api/src/main/java/com/reliaquest/api/service/EmployeeService.java:55-62 | every returned name is the name of a snapshot employee |
| `Service.TopTenOfAscendingSalaries` | api/src/main/java/com/reliaquest/api/service/EmployeeService.java:55-62 | with strictly rising salaries, name k is the name of the k-th employee from the end (salaries 10..500 give Test-50 down to Test-41) |
| `Service.HighestSalaryLeadsTopEarners` | api/src/main/java/com/reliaquest/api/service/EmployeeService.java:47-62 | for a non-empty snapshot the highest salary is the first top earner's salary |
| `Service.SaveEmployee` | api/src/main/java/com/reliaquest/api/service/EmployeeService.java:64-68 | the downstream is sent exactly From(request), and the result is toEmployee of its answer |
| `Service.SaveEmployeeKeepsRequest` | api/src/main/java/com/reliaquest/api/service/EmployeeService.java:64-68 | if the downstream creates what it is asked to, the saved employee has the request's name, salary, age and title |
| `Service.DeleteById` | api/src/main/java/com/reliaquest/api/service/EmployeeService.java:70-84 | not-found (carrying the id) iff no snapshot employee has the id; otherwise one delete-by-name with the name of the first employee that has the id |
| `Service.DeleteCalls` | api/src/main/java/com/reliaquest/api/service/EmployeeService.java:77-83 | a not-found outcome sends no call; a delete outcome sends exactly its one request |
| `Service.DeleteCallsAtMostOnce` | api/src/main/java/com/reliaquest/api/service/EmployeeService.java:70-84 | deleteById sends exactly one delete call when the id is in the snapshot and none when it is not |
| `Service.DeleteResult` | api/src/main/java/com/reliaquest/api/service/EmployeeService.java:77-83 | the method fails with not-found exactly for a not-found outcome; the downstream's boolean answer is ignored |
| `Service.DeleteSucceedsIffPresent` | api/src/main/java/com/reliaquest/api/service/EmployeeService.java:70-84 | deleteById completes normally iff the id is in the snapshot, whatever the downstream answered |
| `Service.HighestOfTwoEmployees` | api/src/main/java/com/reliaquest/api/service/EmployeeService.java:47-53 | salaries 381603 and 259185 give 381603 |
| `Service.SearchIsExactMatch` | api/src/main/java/com/reliaquest/api/service/EmployeeService.java:34-39 | the full name finds its one record; a prefix of it finds nothing |

## Left out

- The HTTP client (`EmployeeApiClient`): WebClient requests, blocking, the `{data, status}` envelope, and turning a 404 into an exception. It appears only as the snapshot, the `lookup` and `create` parameters, and the returned delete request.
- JSON decoding with the `employee_*` key names: library behaviour. Records arrive already decoded.
- `UUID.fromString` in `getEmployeeById`: a library parse. Ids are already `Uuid` values, so the error for a malformed id string is not modelled.
- Transport failures and other non-404 downstream errors: they propagate unchanged and are outside the model.
- Null fields. A null `salary` makes the Java sort and max throw. Null names and titles are also possible. The model assumes every field is present. The one null it keeps is the search string of `findEmployeeByName`, which the code checks.
- The text of the not-found exception message. Only the id it names is kept.
- The controller and its status codes, and the configuration class: framework wiring.
- What the downstream does with a delete-by-name. If two employees share a name, both may be removed. That happens downstream and is not modelled.
- Each call fetches its own snapshot. Two calls may see different downstream states, and nothing here relates them.
