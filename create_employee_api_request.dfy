/** The request bodies this service sends downstream, and the create request
    it receives from its own callers. */
module Inbound {
  import opened EmployeeModel

  /** The facade's create payload: no id and no email, both assigned downstream. */
  datatype CreateEmployeeRequest = CreateEmployeeRequest(
    name: string,
    salary: Int32,
    age: Int32,
    title: string)

  /** The body of the downstream create call. */
  datatype CreateEmployeeApiRequest = CreateEmployeeApiRequest(
    name: string,
    salary: Int32,
    age: Int32,
    title: string)
  {
    /** Copies the four fields of the facade's create payload. */
    static function From(r: CreateEmployeeRequest): (a: CreateEmployeeApiRequest)
      ensures a.name == r.name
      ensures a.salary == r.salary
      ensures a.age == r.age
      ensures a.title == r.title
    {
      CreateEmployeeApiRequest(r.name, r.salary, r.age, r.title)
    }
  }

  /** The body of the downstream delete call: the downstream deletes by name. */
  datatype DeleteEmployeeApiRequest = DeleteEmployeeApiRequest(name: string)

  /** From is one-to-one and onto: the downstream body carries exactly the
      caller's four fields, nothing added and nothing dropped. */
  lemma FromIsBijective(r1: CreateEmployeeRequest, r2: CreateEmployeeRequest, a: CreateEmployeeApiRequest)
    ensures CreateEmployeeApiRequest.From(r1) == CreateEmployeeApiRequest.From(r2) ==> r1 == r2
    ensures CreateEmployeeApiRequest.From(CreateEmployeeRequest(a.name, a.salary, a.age, a.title)) == a
  {
  }
}
