/** The facade's Employee record and the value types it is built from. */
module EmployeeModel {

  /** A `java.util.UUID`: two 64-bit halves. The service only ever compares
      identifiers for equality, so nothing else about them is modelled. */
  datatype Uuid = Uuid(mostSigBits: bv64, leastSigBits: bv64)

  /** Java's 32-bit `int`, the range of a non-null `Integer`. */
  newtype Int32 = x: int | -0x8000_0000 <= x < 0x8000_0000

  /** The employee as this service hands it to its callers. */
  datatype Employee = Employee(
    id: Uuid,
    name: string,
    salary: Int32,
    age: Int32,
    title: string,
    email: string)
}
