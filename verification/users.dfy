/** The user columns the core reads: role, assigned office and the active flag
    (the migration that adds them to the users table). The User model's methods
    are not part of this model. */
module Users {
  import opened Base

  /** The `role` enum: exactly three values. */
  datatype Role = Employee | Admin | Hrd

  datatype User = User(id: nat, role: Role, officeId: Option<nat>, isActive: bool)

  /** The role a request parameter names, when it names one of the three exactly. */
  function RoleNamed(name: string): (r: Option<Role>)
    ensures r == Some(Employee) <==> name == "employee"
    ensures r == Some(Admin) <==> name == "admin"
    ensures r == Some(Hrd) <==> name == "hrd"
  {
    if name == "employee" then Some(Employee)
    else if name == "admin" then Some(Admin)
    else if name == "hrd" then Some(Hrd)
    else None
  }
}
