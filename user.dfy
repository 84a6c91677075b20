/** A user of the tracker: a name and the set of roles the user plays. */
module Users {

  /** The roles a user can play (declared as `IssueManager.UserClass` in the
      Java code; kept here so that the user model does not depend on the
      manager). */
  datatype UserClass = Reporter | Maintainer

  class User {
    var name: string
    var roles: set<UserClass>

    /** The constructor that receives the whole role set. */
    constructor WithRoles(name: string, roles: set<UserClass>)
      ensures this.name == name && this.roles == roles
    {
      this.name := name;
      this.roles := roles;
    }

    /** The constructor that receives one role: the role set starts empty
        and the role is added to it. */
    constructor WithRole(name: string, role: UserClass)
      ensures this.name == name && this.roles == {role}
    {
      this.name := name;
      this.roles := {};
      new;
      roles := roles + {role};
    }

    method SetName(name: string)
      modifies this`name
      ensures this.name == name && roles == old(roles)
    {
      this.name := name;
    }

    method SetRoles(roles: set<UserClass>)
      modifies this`roles
      ensures this.roles == roles && name == old(name)
    {
      this.roles := roles;
    }
  }
}
