/** The Employee entity, its validation attributes, and the EmployeeDTO
    record it is exchanged as. */
module Employees {
  import opened Common
  import opened Text
  import opened Roles

  /** One Employees row. Strings may be null; Role is the RoleType enum (the
      schema stores it as an int). `tasks` is the Tasks navigation
      collection, given by the TaskIds it holds; None when it is not loaded. */
  datatype Employee = Employee(
    id: int,
    firstName: Option<string>,
    lastName: Option<string>,
    role: RoleType,
    email: Option<string>,
    password: Option<string>,
    mobileNumber: Option<string>,
    tasks: Option<seq<int>>)

  /** The transfer record: Role travels as its name. */
  datatype EmployeeDTO = EmployeeDTO(
    id: int,
    firstName: Option<string>,
    lastName: Option<string>,
    role: Option<string>,
    email: Option<string>,
    mobileNumber: Option<string>)

  const PasswordMinLength: nat := 8

  /** The messages the validation attributes of Employee report, in
      declaration order. Role is an enum, so its [Required] cannot fail. */
  function EmployeeErrors(e: Employee): (errors: seq<string>)
    ensures |errors| <= 6
    ensures (e.firstName.None? || e.lastName.None? || e.email.None? ||
             e.password.None? || e.mobileNumber.None?) ==> errors != []
    ensures "Password must be at least 8 characters long" in errors <==>
            (e.password.Some? && Utf16Length(e.password.value) < PasswordMinLength)
  {
    (if Required(e.firstName) then [] else ["Please enter your first name"]) +
    (if Required(e.lastName) then [] else ["Please enter your last name"]) +
    (if Required(e.email) then [] else ["Please enter your email"]) +
    (if Required(e.password) then [] else ["Please enter your password"]) +
    (if AtLeastLength(e.password, PasswordMinLength) then []
     else ["Password must be at least 8 characters long"]) +
    (if Required(e.mobileNumber) then [] else ["Please enter your mobile number"])
  }

  /** An employee whose every validation attribute is satisfied. */
  predicate ValidEmployee(e: Employee) {
    && Required(e.firstName)
    && Required(e.lastName)
    && Required(e.email)
    && Required(e.password)
    && AtLeastLength(e.password, PasswordMinLength)
    && Required(e.mobileNumber)
  }

  /** The attributes report no message exactly for a valid employee; a valid
      employee's password has at least eight UTF-16 code units. */
  lemma ValidEmployeeIffNoErrors(e: Employee)
    ensures ValidEmployee(e) <==> EmployeeErrors(e) == []
    ensures ValidEmployee(e) ==> Utf16Length(e.password.value) >= 8
  {
  }
}
