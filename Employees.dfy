/** One employee row: the four columns the generator writes and the handler reads. */
module Employees {
  import opened Calendar

  datatype Record = Record(employeeName: string, startDate: Date, department: string, role: string)
}
