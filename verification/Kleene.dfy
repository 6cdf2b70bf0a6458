/** SQL's three-valued logic, and what a WHERE clause, a plpgsql IF and a CHECK make of its values. */
module Kleene {

  datatype Truth = True | False | Unknown

  datatype Nullable<+T> = Null | Value(value: T)

  function And(a: Truth, b: Truth): Truth {
    if a == False || b == False then False
    else if a == True && b == True then True
    else Unknown
  }

  function Or(a: Truth, b: Truth): Truth {
    if a == True || b == True then True
    else if a == False && b == False then False
    else Unknown
  }

  function Not(a: Truth): Truth {
    match a
    case True => False
    case False => True
    case Unknown => Unknown
  }

  function Of(b: bool): Truth {
    if b then True else False
  }

  function IsNull<T>(x: Nullable<T>): Truth {
    Of(x.Null?)
  }

  /** x <= y over nullable numbers. */
  function AtMost(x: Nullable<real>, y: Nullable<real>): Truth {
    if x.Null? || y.Null? then Unknown else Of(x.value <= y.value)
  }

  /** x > y over nullable numbers. */
  function Exceeds(x: Nullable<real>, y: Nullable<real>): Truth {
    if x.Null? || y.Null? then Unknown else Of(x.value > y.value)
  }

  /** A WHERE clause keeps a row only when its condition is TRUE. */
  predicate Selects(t: Truth) {
    t == True
  }

  /** A CHECK constraint rejects a row only when its condition is FALSE. */
  predicate Admits(t: Truth) {
    t != False
  }
}
