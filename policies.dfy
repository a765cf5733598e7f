/**
  The authorization policies for timesheets and projects: who may list, see, create, change and
  delete them.
*/
module Policies {

  datatype User = User(id: nat)

  /** A timesheet, by the user it belongs to. */
  datatype Timesheet = Timesheet(userId: nat)

  /** A project, by the ids of the users attached to it through its `users` relation. */
  datatype Project = Project(userIds: set<nat>)

  /** TimesheetPolicy: anyone may list or create; only the owner may see, change or delete. */
  function TimesheetViewAny(user: User): (b: bool)
    ensures b
  {
    true
  }

  function TimesheetCreate(user: User): (b: bool)
    ensures b
  {
    true
  }

  /** The ownership test shared by view, update and delete. */
  predicate OwnsTimesheet(user: User, t: Timesheet) {
    t.userId == user.id
  }

  function TimesheetView(user: User, t: Timesheet): (b: bool)
    ensures b <==> OwnsTimesheet(user, t)
  {
    t.userId == user.id
  }

  function TimesheetUpdate(user: User, t: Timesheet): (b: bool)
    ensures b <==> OwnsTimesheet(user, t)
  {
    t.userId == user.id
  }

  function TimesheetDelete(user: User, t: Timesheet): (b: bool)
    ensures b <==> OwnsTimesheet(user, t)
  {
    t.userId == user.id
  }

  /** Exactly one user may touch a given timesheet, and two users never both may. */
  lemma TimesheetSingleOwner(u1: User, u2: User, t: Timesheet)
    requires u1.id != u2.id
    ensures !(TimesheetView(u1, t) && TimesheetView(u2, t))
    ensures TimesheetView(User(t.userId), t)
  {
  }

  /** hasAccess: the user is among the project's users. */
  function HasAccess(user: User, p: Project): (b: bool)
    ensures b <==> user.id in p.userIds
  {
    user.id in p.userIds
  }

  /** ProjectPolicy: anyone may list or create; members may see, change and delete. */
  function ProjectViewAny(user: User): (b: bool)
    ensures b
  {
    true
  }

  function ProjectCreate(user: User): (b: bool)
    ensures b
  {
    true
  }

  function ProjectView(user: User, p: Project): (b: bool)
    ensures b <==> user.id in p.userIds
  {
    HasAccess(user, p)
  }

  function ProjectUpdate(user: User, p: Project): (b: bool)
    ensures b <==> user.id in p.userIds
  {
    HasAccess(user, p)
  }

  function ProjectDelete(user: User, p: Project): (b: bool)
    ensures b <==> user.id in p.userIds
  {
    HasAccess(user, p)
  }

  /** Attaching a user to a project grants that user access and changes no one else's. */
  lemma AttachGrantsOnlyThatUser(p: Project, newcomer: nat, other: User)
    ensures ProjectView(User(newcomer), Project(p.userIds + {newcomer}))
    ensures other.id != newcomer ==> ProjectView(other, Project(p.userIds + {newcomer})) == ProjectView(other, p)
  {
  }

  /** A project without users is closed to everyone, though anyone may still list and create. */
  lemma EmptyProjectClosed(user: User)
    ensures !ProjectView(user, Project({})) && !ProjectUpdate(user, Project({})) && !ProjectDelete(user, Project({}))
    ensures ProjectViewAny(user) && ProjectCreate(user)
  {
  }
}
