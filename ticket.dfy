/** A ticket (defect report) filed against a component, and the counter that
    numbers tickets. */
module Tickets {
  import opened Wrappers
  import opened Users
  import opened Components

  /** Declaration order is the order of the sorted aggregations. */
  datatype Severity = Blocking | Critical | Major | Minor | Cosmetic

  datatype State = Open | Assigned | Closed

  /** The process-wide ticket counter (`Ticket.progNum`), made an explicit
      object. It starts at 1. */
  class TicketCounter {
    var next: int

    constructor ()
      ensures next == 1
    {
      next := 1;
    }
  }

  class Ticket {
    // Set by the constructor only: the Java class has no setter for them.
    const author: User
    const component: Component?
    const description: string
    const severity: Severity
    /** What both `getId` and `getNumber` return. */
    const number: int

    var assignee: User?
    var solution: Option<string>
    var state: State

    /** Takes the counter's current value as the ticket number, then
        increments the counter. A new ticket is Open, unassigned and has no
        solution. */
    constructor (author: User, component: Component?, description: string, severity: Severity,
                 counter: TicketCounter)
      modifies counter
      ensures number == old(counter.next) && counter.next == old(counter.next) + 1
      ensures this.author == author && this.component == component
      ensures this.description == description && this.severity == severity
      ensures state == Open && assignee == null && solution == None
    {
      this.author := author;
      this.component := component;
      this.description := description;
      this.severity := severity;
      this.number := counter.next;
      assignee := null;
      solution := None;
      state := Open;
      new;
      counter.next := counter.next + 1;
    }

    /** Records the assignee; the state is left as it was. */
    method SetAssignee(assignee: User?)
      modifies this`assignee
      ensures this.assignee == assignee
      ensures state == old(state) && solution == old(solution)
    {
      this.assignee := assignee;
    }

    /** Closes the ticket whatever its current state. */
    method Close(description: string)
      modifies this`state, this`solution
      ensures state == Closed && solution == Some(description)
      ensures assignee == old(assignee)
      ensures SolutionDescription() == Ok(Some(description))
    {
      state := Closed;
      solution := Some(description);
    }

    /** The solution text (`name()` in the Java class): only a Closed ticket
        has one to give. */
    function SolutionDescription(): (r: Result<Option<string>>)
      reads this
      ensures r.Ok? <==> state == Closed
      ensures r.Ok? ==> r.value == solution
      ensures r.Err? ==> r.fault == TicketException
    {
      if state != Closed then Err(TicketException) else Ok(solution)
    }
  }
}
