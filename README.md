# Issue tracker model

A Dafny model of the `ticketing` package of OOP_IssueManagment, a small
in-memory issue tracker. The tracker (`IssueManager`) keeps three registries:

- users by name, each playing some of the roles Reporter and Maintainer;
- root components by name, each the top of a tree of subcomponents
  addressed by paths such as `/System/SubB`;
- tickets by number.

Reporters open tickets against a component. Maintainers are assigned to
tickets. A ticket in state Assigned can be closed with a solution text. Two
reports read the tickets: a count of tickets per severity, and one
`name:NNN` line per assignee.

Modules, one per Java class:

- `Wrappers`: `Option`, `Result` and `Status`, and the exceptions the Java
  code raises (`TicketException`, and the runtime faults
  `NullPointerException` and `ArrayIndexOutOfBoundsException`), kept as
  outcomes.
- `Users`, `Components`, `Tickets`: the classes `User`, `Component` and
  `Ticket`, with their fields and mutators. The static counter
  `Ticket.progNum` becomes a `TicketCounter` object.
- `Paths`: `String.split("/")` as Java defines it. It keeps the leading
  empty piece, drops the trailing empty pieces, and returns a string with no
  separator whole. It also gives the path written for a list of names.
- `Reports`: the two stream pipelines over a sequence of ticket facts. These
  are the grouping by severity behind `countBySeverityOfState`, and the
  grouping by assignee name plus `%03d` formatting behind `topMaintainers`.
- `IssueManagers`: the `IssueManager` class.

`IssueManager` carries a ghost map `Tree` from paths (a root's name, then the
child names) to components. Its invariant `Valid` says:

- the roots are the one-segment paths;
- every child link of a node is a path one segment longer;
- every node's parent is the node one segment up;
- no node sits under two paths;
- tickets `1 .. next-1` are stored under their own numbers.

`Resolve` states path resolution over `Tree`. The loop in
`GetComponentFromPath` is proved equal to it.

The model follows the code as written, including behaviour that the
documentation comments describe differently:

- `createUser` fails when the user map is empty (`users.size() == 0`), not
  when the role set is empty. From the initial state no user can ever be
  registered (`CreateUser`, last ensures).
- `assignTicket` records the assignee but never sets state Assigned. As
  `closeTicket` demands state Assigned, closing fails in every reachable
  state (`CloseTicket`, last ensures; `NoneAssigned` is kept by every
  operation).
- `getParentComponent` of a root dereferences the root's null parent and
  faults. The comment promises null instead.
- `topMaintainers` counts every assigned ticket and does not sort. The
  comment promises a list sorted by count and name. A ticket without an
  assignee makes it fault.
- `defineSubComponent` with a name already bound replaces that child and its
  subtree without an error.
- Path resolution:
  - a path with fewer than two pieces faults on `path[1]`;
  - an unknown root yields null when nothing follows it, and faults when
    more pieces follow;
  - a missing child raises `TicketException`.

## Model

| member | source | states |
|---|---|---|
| `Users.User.WithRoles` | OOP_IssueManagment/src/ticketing/User.java:12-16 | the new user has the given name and exactly the given role set |
| `Users.User.WithRole` | OOP_IssueManagment/src/ticketing/User.java:18-22 | the role set starts empty and the one role is added, so it is exactly `{role}` |
| `Users.User.SetName` | OOP_IssueManagment/src/ticketing/User.java:28-30 | the name is replaced and the roles are kept |
| `Users.User.SetRoles` | OOP_IssueManagment/src/ticketing/User.java:36-38 | the role set is replaced and the name is kept |
| `Components.Component.constructor` | OOP_IssueManagment/src/ticketing/Component.java:11-17 | name and parent as given; a null child map leaves the node with no children, a given map is adopted |
| `Components.Component.AddSubcomponent` | OOP_IssueManagment/src/ticketing/Component.java:19-21 | a fresh childless node whose parent is this node is bound under the name, replacing any earlier binding; the other bindings and this node's parent stay |
| `Components.Component.SetParent` | OOP_IssueManagment/src/ticketing/Component.java:35-37 | only the parent changes |
| `Tickets.TicketCounter.constructor` | OOP_IssueManagment/src/ticketing/Ticket.java:11 | numbering starts at 1 |
| `Tickets.Ticket.constructor` | OOP_IssueManagment/src/ticketing/Ticket.java:15-22 | the ticket takes the counter's current value as its number and the counter moves on by one; the ticket is Open, unassigned and without a solution, with the given author, component, description and severity |
| `Tickets.Ticket.SetAssignee` | OOP_IssueManagment/src/ticketing/Ticket.java:65-67 | the assignee is recorded; state and solution are unchanged, so the ticket does not become Assigned |
| `Tickets.Ticket.Close` | OOP_IssueManagment/src/ticketing/Ticket.java:77-80 | whatever the state was, the ticket is Closed with the solution, the assignee is kept, and the solution can then be read back |
| `Tickets.Ticket.SolutionDescription` | OOP_IssueManagment/src/ticketing/Ticket.java:89-93 | the solution is available exactly when the ticket is Closed; otherwise `TicketException` |
| `Paths.Pieces` | OOP_IssueManagment/src/ticketing/IssueManager.java:222 | k separators give k + 1 pieces, none holding a '/' |
| `Paths.DropTrailingEmpty` | OOP_IssueManagment/src/ticketing/IssueManager.java:222 | the result is a prefix of the pieces, does not end with an empty piece, and only empty pieces were dropped |
| `Paths.SplitSlash` | OOP_IssueManagment/src/ticketing/IssueManager.java:222 | no piece of the split holds a '/' |
| `Paths.JoinPieces` | OOP_IssueManagment/src/ticketing/IssueManager.java:222 | joining the pieces with '/' gives back the string |
| `Paths.PiecesJoin` | OOP_IssueManagment/src/ticketing/IssueManager.java:222 | splitting a join of slash-free pieces gives back the pieces |
| `Paths.SplitPathOf` | OOP_IssueManagment/src/ticketing/IssueManager.java:222 | the path `/n1/.../nk` of non-empty slash-free names splits into the empty piece followed by the names |
| `Paths.PathOfIsJoin` | OOP_IssueManagment/src/ticketing/IssueManager.java:222 | the path of a list of names is the join of the empty piece and the names |
| `Paths.TrailingSlashIgnored` | OOP_IssueManagment/src/ticketing/IssueManager.java:222 | a trailing '/' does not change the split of a non-empty string |
| `Reports.GroupBySeverity` | OOP_IssueManagment/src/ticketing/IssueManager.java:200-204 | the `groupingBy(severity, counting())` fold after the state filter: every key's count is at least 1 and at most the number of tickets |
| `Reports.GroupBySeverityCounts` | OOP_IssueManagment/src/ticketing/IssueManager.java:198-205 | a severity is a key exactly when some selected ticket has it, and its count is the number of selected tickets of that severity |
| `Reports.CountsSumToSelected` | OOP_IssueManagment/src/ticketing/IssueManager.java:198-205 | the counts add up to the number of selected tickets, which is at most the number of tickets and equals it when no state is given |
| `Reports.SortedEntries` | OOP_IssueManagment/src/ticketing/IssueManager.java:201 | the entries of the count map in TreeMap order: strictly increasing severity, each entry from the map, every key present |
| `Reports.GroupByAssignee` | OOP_IssueManagment/src/ticketing/IssueManager.java:216-217 | the `groupingBy(assignee name, counting())` fold: a null dereference if it fails, and otherwise every count is at least 1 and at most the number of tickets |
| `Reports.GroupByAssigneeCounts` | OOP_IssueManagment/src/ticketing/IssueManager.java:216-217 | grouping by assignee name faults (null dereference) exactly when some ticket is unassigned; otherwise the keys are the assignees and each count is that assignee's number of tickets |
| `Reports.Entry` | OOP_IssueManagment/src/ticketing/IssueManager.java:218 | a report line is the name, a colon, and digits that read back as the count |
| `Reports.TopMaintainers` | OOP_IssueManagment/src/ticketing/IssueManager.java:215-219 | the report faults exactly when some ticket is unassigned; otherwise it holds the line `name:count` for every assignee and nothing else, one line per assignee |
| `Reports.EntriesOneToOne` | OOP_IssueManagment/src/ticketing/IssueManager.java:218 | distinct assignees give distinct lines, so there are as many lines as assignees |
| `Reports.EntryInjective` | OOP_IssueManagment/src/ticketing/IssueManager.java:218 | a `name:NNN` line determines both the name and the count |
| `Reports.Decimal` | OOP_IssueManagment/src/ticketing/IssueManager.java:218 | the decimal text of a number is a non-empty string of digits with no leading zero, and `"0"` for zero |
| `Reports.Pad3` | OOP_IssueManagment/src/ticketing/IssueManager.java:218 | `%03d` yields only digits |
| `Reports.DecimalRoundTrip` | OOP_IssueManagment/src/ticketing/IssueManager.java:218 | reading the decimal text back gives the number |
| `Reports.Pad3RoundTrip` | OOP_IssueManagment/src/ticketing/IssueManager.java:218 | reading the `%03d` text back gives the number; the text has at least three digits, exactly three below 1000, and from 100 on the plain decimal text, which starts with a non-zero digit |
| `IssueManagers.IssueManager.constructor` | OOP_IssueManagment/src/ticketing/IssueManager.java:16-18 | the three registries start empty, numbering starts at 1, and the invariant holds |
| `IssueManagers.IssueManager.CreateUser` | OOP_IssueManagment/src/ticketing/IssueManager.java:31-39 | fails when the user map is empty or the name is taken; otherwise exactly one fresh user with that name and those roles is added; an empty registry stays empty |
| `IssueManagers.IssueManager.CreateUserWithRole` | OOP_IssueManagment/src/ticketing/IssueManager.java:41-45 | the same as `CreateUser` with the role set `{role}` |
| `IssueManagers.IssueManager.GetUserClasses` | OOP_IssueManagment/src/ticketing/IssueManager.java:53-55 | the roles of a registered user; a null dereference exactly when the name is unknown |
| `IssueManagers.IssueManager.Resolve` | OOP_IssueManagment/src/ticketing/IssueManager.java:221-231 | the reference definition of path resolution over the tree: an index fault exactly when the split has fewer than two pieces, null only for a lone unknown root, and otherwise the node stored under the path |
| `IssueManagers.IssueManager.GetComponentFromPath` | OOP_IssueManagment/src/ticketing/IssueManager.java:221-231 | the descent from the root, piece by piece, yields what `Resolve` reads off the tree: the node at the path, or the fault the Java code raises |
| `IssueManagers.IssueManager.ResolvePathOf` | OOP_IssueManagment/src/ticketing/IssueManager.java:221-231 | resolving `/n1/.../nk` finds the node at those names; an absent path under a known root raises `TicketException`; an unknown root yields null for one name and a null dereference for more |
| `IssueManagers.IssueManager.PrefixInTree` | OOP_IssueManagment/src/ticketing/IssueManager.java:225-229 | every prefix of a path in the tree is in the tree, so the descent never skips a missing ancestor |
| `IssueManagers.IssueManager.AbsentChild` | OOP_IssueManagment/src/ticketing/IssueManager.java:226-227 | a path that leaves the tree at some piece is not in the tree, which is why the descent may stop there |
| `IssueManagers.IssueManager.NameIsLast` | OOP_IssueManagment/src/ticketing/IssueManager.java:110-113 | a node's name is the last piece of its path |
| `IssueManagers.IssueManager.DefineComponent` | OOP_IssueManagment/src/ticketing/IssueManager.java:66-70 | fails exactly when the root name exists; otherwise a fresh childless root with no parent is added under the name, the invariant is kept, and resolving `/name` finds it |
| `IssueManagers.IssueManager.RootAdded` | OOP_IssueManagment/src/ticketing/IssueManager.java:66-70 | adding a new childless root keeps the component forest well formed |
| `IssueManagers.IssueManager.ForestKept` | OOP_IssueManagment/src/ticketing/IssueManager.java:126-137 | a change that leaves the roots, the tree and its nodes alone keeps the component forest well formed |
| `IssueManagers.IssueManager.DefineSubComponent` | OOP_IssueManagment/src/ticketing/IssueManager.java:86-89 | fails with the resolution's fault, or with a null dereference on a null root; otherwise a fresh childless node becomes the child `name` of the resolved node, replacing any earlier child and its subtree; the invariant is kept and the path still resolves to the same node |
| `IssueManagers.IssueManager.GraftValid` | OOP_IssueManagment/src/ticketing/IssueManager.java:86-89 | binding a fresh child under a node, with the old subtree under that name dropped, keeps the whole invariant |
| `IssueManagers.IssueManager.GraftChildren` | OOP_IssueManagment/src/ticketing/Component.java:19-21 | after the binding, every child link of a node in the tree is a path one segment longer |
| `IssueManagers.IssueManager.GraftLinks` | OOP_IssueManagment/src/ticketing/Component.java:19-21 | after the binding, every node is its parent's child under its own name, and no node sits under two paths |
| `IssueManagers.IssueManager.GetSubComponents` | OOP_IssueManagment/src/ticketing/IssueManager.java:99-102 | the children of the resolved node are exactly the nodes one segment below its path; otherwise the resolution's fault or a null dereference |
| `IssueManagers.IssueManager.GetParentComponent` | OOP_IssueManagment/src/ticketing/IssueManager.java:110-113 | the name of the parent is the next-to-last piece of the path; a root (one piece) faults on its null parent, as does an unknown root |
| `IssueManagers.IssueManager.OpenTicket` | OOP_IssueManagment/src/ticketing/IssueManager.java:126-137 | resolution faults first, then an unknown user or a user without Reporter raises `TicketException`; on success a fresh Open ticket with the next number, that author, component, description and severity is the only one added; the invariant is kept |
| `IssueManagers.IssueManager.GetTicket` | OOP_IssueManagment/src/ticketing/IssueManager.java:145-147 | a ticket is found exactly for the numbers issued so far, and it carries that number |
| `IssueManagers.IssueManager.TicketsFrom` | OOP_IssueManagment/src/ticketing/IssueManager.java:153-155 | the tickets from a number on, one per number, in ascending order |
| `IssueManagers.IssueManager.AllTickets` | OOP_IssueManagment/src/ticketing/IssueManager.java:153-155 | every stored ticket, each once, in strictly ascending number order |
| `IssueManagers.IssueManager.AssignTicket` | OOP_IssueManagment/src/ticketing/IssueManager.java:166-174 | fails exactly for an unknown ticket, an unknown user or a user without Maintainer; on success only the assignee changes, and no ticket becomes Assigned |
| `IssueManagers.IssueManager.CloseTicket` | OOP_IssueManagment/src/ticketing/IssueManager.java:183-189 | fails exactly for an unknown ticket or one not in state Assigned; on success the ticket is Closed with the solution; while no ticket is Assigned it always fails |
| `IssueManagers.Snapshot` | OOP_IssueManagment/src/ticketing/IssueManager.java:200-217 | what the reports read of a ticket: its severity, its state, and its assignee's name exactly when it has an assignee |
| `IssueManagers.IssueManager.Facts` | OOP_IssueManagment/src/ticketing/IssueManager.java:198-218 | what the reports read: one snapshot per ticket, in number order |
| `IssueManagers.IssueManager.FactsAssigned` | OOP_IssueManagment/src/ticketing/IssueManager.java:217 | every snapshot names an assignee exactly when every stored ticket has one |
| `IssueManagers.IssueManager.CountBySeverityOfState` | OOP_IssueManagment/src/ticketing/IssueManager.java:198-205 | a severity is a key exactly when some ticket in the given state (or any ticket, with none given) has it, and its count is the number of such tickets; the counts add up to the number of tickets in that state, and to the number of all tickets with none given |
| `IssueManagers.IssueManager.TopMaintainers` | OOP_IssueManagment/src/ticketing/IssueManager.java:215-219 | faults exactly when some stored ticket has no assignee; otherwise the lines are exactly `name:count` for every assignee, with that assignee's number of tickets, one line per assignee |

## Left out

- The getters (`getName`, `getRoles`, `getSubcomponents`, `getParent`, `getDescription`, `getId`, `getNumber`, `getComponent`, `getAuthor`, `getSeverity`, `getAssignee`, `getState`) are field reads in the model, not members of their own.
- Aliasing of Java collections is not modelled. Maps and sets are values here. So `getUserClasses` handing out the live role set, or a child map passed to the `Component` constructor and shared with its caller, cannot be changed behind an owner's back.
- Changes a client makes to component nodes the tracker hands out are not modelled. Such nodes come from `getSubComponents` or a ticket's component. The invariant that every tracker operation requires rules out a tree changed this way: a child added with `addSubcomponent` outside `defineSubComponent`, or a parent replaced with `setParent`. The Java code keeps working after such changes. After `c.setParent(x)`, for example, `getParentComponent` names `x`.
- Reports.Pad3: `String.format("%03d", ...)` formats with the JVM's default locale, whose zero digit may not be `'0'` (Persian, or Arabic with native digits). The report is modelled for a default locale whose zero digit is `'0'`, so the digits are ASCII `'0'`..`'9'`.
- Null arguments (a null name, role set, description or severity) are not modelled. Strings, sets and enumerations are never null here. Null components and users are modelled wherever the code produces them.
- The test `users == null` in `createUser` is left out. The field is initialised and never reassigned, so it is always false.
- The static `progNum` is shared by every `IssueManager` in a process. Here each tracker owns its own counter, which starts at 1. Numbering across several trackers is therefore not modelled.
- IssueManagers.IssueManager.OpenTicket: ticket numbers are unbounded integers. The 32-bit wrap-around of `progNum++` after 2^31 - 1 tickets is not modelled.
- IssueManagers.IssueManager.TopMaintainers: the lines come from a hash map, and their order is not modelled. The report is a set of lines, which is sound because the lines are distinct (`Reports.EntriesOneToOne`).
- IssueManagers.IssueManager.GetSubComponents: the result is a `HashSet`, modelled as a set, so its iteration order is not modelled.
- IssueManagers.IssueManager.CountBySeverityOfState: counts are unbounded naturals, not `Long`. Overflow would need more tickets than memory holds.
- Exceptions are outcomes (`Result`, `Status`), not control flow. A faulting operation leaves the state unchanged, as it does in the Java code, where every throw comes before the first write.
- `TicketException` and the `UserClass` enumeration are plain values. The exception class has no behaviour to model.
