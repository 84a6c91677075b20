/** The tracker itself: the users by name, the root components by name and
    the tickets by number, and the operations that check roles, resolve
    component paths, open, assign and close tickets, and report on them. */
module IssueManagers {
  import opened Wrappers
  import opened Users
  import opened Components
  import opened Tickets
  import Paths
  import Reports

  /** What the reports read of a ticket. */
  function Snapshot(t: Ticket): (r: Reports.TicketFacts)
    reads t, t.assignee
    ensures r.severity == t.severity && r.state == t.state
    ensures r.assignee.Some? <==> t.assignee != null
    ensures r.assignee.Some? ==> r.assignee.value == t.assignee.name
  {
    Reports.TicketFacts(t.severity, t.state, if t.assignee == null then None else Some(t.assignee.name))
  }

  class IssueManager {
    var users: map<string, User>
    var components: map<string, Component>
    var tickets: map<int, Ticket>
    /** The ticket counter this tracker numbers its tickets with. */
    const counter: TicketCounter

    /** Every component reachable from the roots, under its path: the
        root's name followed by the child names down to it. */
    ghost var Tree: map<seq<string>, Component>

    // -------------------------------------------------------------------------
    // The invariant

    /** The roots are exactly the one-segment paths; a root has its own name
        and no parent. */
    ghost predicate RootsOk()
      reads this`Tree, this`components, Tree.Values
    {
      && [] !in Tree
      && (forall r {:trigger r in components} :: r in components ==> [r] in Tree && Tree[[r]] == components[r])
      && (forall r {:trigger [r] in Tree} :: [r] in Tree ==> r in components && Tree[[r]].name == r && Tree[[r]].parent == null)
    }

    /** Each child of a node in the tree is in the tree, one segment deeper. */
    ghost predicate ChildrenOk()
      reads this`Tree, Tree.Values
    {
      forall p, n {:trigger n in Tree[p].subcomponents} :: p in Tree && n in Tree[p].subcomponents ==>
        p + [n] in Tree && Tree[p + [n]] == Tree[p].subcomponents[n]
    }

    /** Each non-root path in the tree is reached from the node of the path
        one segment shorter, which is its parent; the last segment is its
        name. */
    ghost predicate LinksOk()
      reads this`Tree, Tree.Values
    {
      forall p, n {:trigger p + [n] in Tree} :: p != [] && p + [n] in Tree ==>
        && p in Tree && n in Tree[p].subcomponents
        && Tree[p + [n]].name == n && Tree[p + [n]].parent == Tree[p]
    }

    /** No node sits under two paths: the components form a forest. */
    ghost predicate DistinctNodes()
      reads this`Tree
    {
      forall p, q :: p in Tree && q in Tree && Tree[p] == Tree[q] ==> p == q
    }

    /** Ticket numbers 1, 2, ... are issued in order and each ticket is stored
        under its own number. */
    ghost predicate TicketsOk()
      reads this`tickets, counter
    {
      && counter.next >= 1
      && |tickets| == counter.next - 1
      && (forall k :: k in tickets <==> 1 <= k < counter.next)
      && (forall k :: k in tickets ==> tickets[k].number == k)
    }

    ghost predicate Valid()
      reads this`Tree, this`components, this`tickets, counter, Tree.Values
    {
      RootsOk() && ChildrenOk() && LinksOk() && DistinctNodes() && TicketsOk()
    }

    /** No stored ticket is in state Assigned. Nothing in the tracker ever
        sets that state, so this holds in every reachable state. */
    ghost predicate NoneAssigned()
      reads this`tickets, tickets.Values
    {
      forall k :: k in tickets ==> tickets[k].state != Assigned
    }

    constructor ()
      ensures Valid() && NoneAssigned()
      ensures users == map[] && components == map[] && tickets == map[] && Tree == map[]
      ensures fresh(counter) && counter.next == 1
    {
      users := map[];
      components := map[];
      tickets := map[];
      counter := new TicketCounter();
      Tree := map[];
    }

    // -------------------------------------------------------------------------
    // Users

    /** Registers a user. As written, the registry must already hold a user
        (the emptiness test is on the map, not on the role set), so from the
        initial empty registry every call fails and the registry stays empty. */
    method CreateUser(username: string, roles: set<UserClass>) returns (r: Status)
      requires Valid()
      modifies this`users
      ensures Valid()
      ensures r == (if |old(users)| == 0 || username in old(users) then Failed(TicketException) else Done)
      ensures r.Failed? ==> users == old(users)
      ensures r.Done? ==>
        && username in users && fresh(users[username])
        && users == old(users)[username := users[username]]
        && users[username].name == username
        && GetUserClasses(username) == Ok(roles)
      ensures old(users) == map[] ==> users == map[]
    {
      if |users| == 0 {
        return Failed(TicketException);
      }
      if username in users {
        return Failed(TicketException);
      }
      var u := new User.WithRoles(username, roles);
      users := users[username := u];
      r := Done;
    }

    /** The one-role form: builds the role set {role} and registers with it. */
    method CreateUserWithRole(username: string, role: UserClass) returns (r: Status)
      requires Valid()
      modifies this`users
      ensures Valid()
      ensures r == (if |old(users)| == 0 || username in old(users) then Failed(TicketException) else Done)
      ensures r.Failed? ==> users == old(users)
      ensures r.Done? ==>
        && username in users && fresh(users[username])
        && users == old(users)[username := users[username]]
        && users[username].name == username
        && GetUserClasses(username) == Ok({role})
      ensures old(users) == map[] ==> users == map[]
    {
      r := CreateUser(username, {role});
    }

    /** The roles of a user; an unknown name dereferences null. */
    function GetUserClasses(username: string): (r: Result<set<UserClass>>)
      reads this, users.Values
      ensures r.Ok? <==> username in users
      ensures r.Ok? ==> r.value == users[username].roles
      ensures r.Err? ==> r.fault == NullPointerException
    {
      if username in users then Ok(users[username].roles) else Err(NullPointerException)
    }

    // -------------------------------------------------------------------------
    // Components

    /** What resolving a path yields, read off the tree: `split("/")` must give
        at least two pieces; the second names a root, and a missing root is
        null (dereferenced, and so a fault, when more pieces follow); the
        pieces from the second on are the path of the node, and a path not in
        the tree is rejected. */
    ghost function Resolve(subPath: string): (r: Result<Component?>)
      reads this`components, this`Tree
      ensures r == Err(ArrayIndexOutOfBoundsException) <==> |Paths.SplitSlash(subPath)| < 2
      ensures r == Ok(null) ==> |NodePath(subPath)| == 1 && NodePath(subPath)[0] !in components
      ensures r.Ok? && r.value != null ==> NodePath(subPath) in Tree && Tree[NodePath(subPath)] == r.value
    {
      var path := Paths.SplitSlash(subPath);
      if |path| < 2 then Err(ArrayIndexOutOfBoundsException)
      else if path[1] !in components then (if |path| == 2 then Result<Component?>.Ok(null) else Err(NullPointerException))
      else if NodePath(subPath) in Tree then Ok(Tree[NodePath(subPath)])
      else Err(TicketException)
    }

    /** The pieces of a path from the second on: the root's name and the
        child names below it. */
    static function NodePath(subPath: string): seq<string>
    {
      var path := Paths.SplitSlash(subPath);
      if |path| < 2 then [] else path[1..]
    }

    /** The node `Resolve` finds, if it finds one. */
    ghost function Target(subPath: string): set<Component>
      reads this
    {
      var r := Resolve(subPath);
      if r.Ok? && r.value != null then {r.value} else {}
    }


    /** Every prefix of a path in the tree is in the tree. */
    lemma {:induction false} PrefixInTree(p: seq<string>, k: nat)
      requires Valid() && 1 <= k <= |p|
      ensures p in Tree ==> p[..k] in Tree
      decreases |p| - k
    {
      if k < |p| {
        var up := p[..|p| - 1];
        assert up + [p[|p| - 1]] == p;
        assert up != [];
        PrefixInTree(up, k);
        assert up[..k] == p[..k];
      } else {
        assert p[..k] == p;
      }
    }

    /** A node is named by the last segment of its path. */
    lemma {:induction false} NameIsLast(p: seq<string>)
      requires Valid() && p in Tree
      ensures p != [] && Tree[p].name == p[|p| - 1]
    {
      if |p| == 1 {
        assert p == [p[0]];
      } else if |p| > 1 {
        assert p[..|p| - 1] + [p[|p| - 1]] == p;
      }
    }

    /** A path that leaves the tree at some segment is not in the tree. */
    lemma {:induction false} AbsentChild(full: seq<string>, k: nat)
      requires Valid() && 1 <= k < |full| && full[..k] in Tree
      requires full[k] !in Tree[full[..k]].subcomponents
      ensures full !in Tree
    {
      PrefixInTree(full, k + 1);
      assert full[..k + 1] == full[..k] + [full[k]];
    }

    /** Resolving the path written for a list of names finds the node at those
        names, or fails as the source does. */
    lemma {:induction false} ResolvePathOf(names: seq<string>)
      requires Valid()
      requires names != [] && forall i :: 0 <= i < |names| ==> Paths.IsSegment(names[i])
      ensures names in Tree ==> Resolve(Paths.PathOf(names)) == Ok(Tree[names])
      ensures names[0] in components && names !in Tree ==> Resolve(Paths.PathOf(names)) == Err(TicketException)
      ensures names[0] !in components ==>
        Resolve(Paths.PathOf(names)) == (if |names| == 1 then Ok(null) else Err(NullPointerException))
    {
      Paths.SplitPathOf(names);
      var path := [""] + names;
      assert path[1..] == names;
      if names in Tree {
        PrefixInTree(names, 1);
        assert names[..1] == [names[0]];
      }
    }

    /** Resolves a path by descending from the root one child per piece. */
    method GetComponentFromPath(subPath: string) returns (r: Result<Component?>)
      requires Valid()
      ensures r == Resolve(subPath)
    {
      var path := Paths.SplitSlash(subPath);
      if |path| < 2 {
        return Err(ArrayIndexOutOfBoundsException);
      }
      ghost var np := NodePath(subPath);
      var par: Component? := if path[1] in components then components[path[1]] else null;
      var rest := path[2..];
      assert np[..1] == [path[1]] && rest == np[1..];
      var i := 0;
      while i < |rest|
        invariant 0 <= i <= |rest|
        invariant par == null ==> path[1] !in components && i == 0
        invariant par != null ==> path[1] in components && np[..i + 1] in Tree && Tree[np[..i + 1]] == par
      {
        if par == null {
          return Err(NullPointerException);
        }
        var st := rest[i];
        assert st == np[i + 1];
        if st !in par.subcomponents {
          AbsentChild(np, i + 1);
          return Err(TicketException);
        }
        par := par.subcomponents[st];
        assert np[..i + 2] == np[..i + 1] + [st];
        i := i + 1;
      }
      assert np[..|rest| + 1] == np;
      r := Ok(par);
    }

    /** Defines a root component; a root of that name must not exist yet. */
    method DefineComponent(name: string) returns (r: Status)
      requires Valid()
      modifies this`components, this`Tree
      ensures Valid()
      ensures r == (if name in old(components) then Failed(TicketException) else Done)
      ensures r.Failed? ==> components == old(components) && Tree == old(Tree)
      ensures r.Done? ==>
        && name in components && fresh(components[name])
        && components == old(components)[name := components[name]]
        && components[name].name == name && components[name].parent == null
        && components[name].subcomponents == map[]
        && Tree == old(Tree)[[name] := components[name]]
      ensures r.Done? && Paths.IsSegment(name) ==> Resolve(Paths.PathOf([name])) == Ok(components[name])
    {
      if name in components {
        return Failed(TicketException);
      }
      var c := new Component(name, None, null);
      components := components[name := c];
      Tree := Tree[[name] := c];
      r := Done;
      RootAdded(name);
      if Paths.IsSegment(name) {
        ResolvePathOf([name]);
      }
    }

    /** Binding a new childless root under a new name keeps the forest
        well formed. */
    twostate lemma RootAdded(name: string)
      requires old(Valid()) && name !in old(components)
      requires name in components && components == old(components)[name := components[name]]
      requires Tree == old(Tree)[[name] := components[name]]
      requires components[name] !in old(Tree).Values && unchanged(old(Tree).Values)
      requires components[name].name == name && components[name].parent == null
      requires components[name].subcomponents == map[]
      ensures RootsOk() && ChildrenOk() && LinksOk() && DistinctNodes()
    {
      assert [name] !in old(Tree);
      assert LinksOk() by {
        forall p, n | p != [] && p + [n] in Tree
          ensures p in Tree && n in Tree[p].subcomponents
          ensures Tree[p + [n]].name == n && Tree[p + [n]].parent == Tree[p]
        {
          assert |p + [n]| != |[name]|;
        }
      }
    }

    /** The forest part of the invariant reads only the tree, the roots and
        the nodes' own fields: while none of those change, it holds on. */
    twostate lemma ForestKept()
      requires old(Valid())
      requires Tree == old(Tree) && components == old(components) && unchanged(old(Tree).Values)
      ensures RootsOk() && ChildrenOk() && LinksOk() && DistinctNodes()
    {
    }

    /** The tree after `child` is bound under path `q`: whatever was under
        `q` goes, and `q` maps to `child`. */
    ghost function Graft(tree: map<seq<string>, Component>, q: seq<string>, child: Component): map<seq<string>, Component>
    {
      (map k | k in tree && !(q <= k) :: tree[k])[q := child]
    }

    /** Adds a child named `name` to the node the path resolves to. A child
        already bound to that name is replaced, with its subtree, without an
        error. */
    method DefineSubComponent(name: string, subPath: string) returns (r: Status)
      requires Valid()
      modifies this`Tree, Target(subPath)
      ensures Valid()
      ensures old(Resolve(subPath)).Err? ==> r == Failed(old(Resolve(subPath)).fault) && Tree == old(Tree)
      ensures old(Resolve(subPath)) == Ok(null) ==> r == Failed(NullPointerException) && Tree == old(Tree)
      ensures old(Resolve(subPath)).Ok? && old(Resolve(subPath)).value != null ==>
        && r == Done
        && NodePath(subPath) + [name] in Tree
        && fresh(Tree[NodePath(subPath) + [name]])
        && Tree[NodePath(subPath) + [name]].name == name
        && Tree[NodePath(subPath) + [name]].parent == old(Resolve(subPath)).value
        && Tree[NodePath(subPath) + [name]].subcomponents == map[]
        && old(Resolve(subPath)).value.subcomponents ==
             old(Resolve(subPath).value.subcomponents)[name := Tree[NodePath(subPath) + [name]]]
        && Tree == Graft(old(Tree), NodePath(subPath) + [name], Tree[NodePath(subPath) + [name]])
        && Resolve(subPath) == old(Resolve(subPath))
    {
      var res := GetComponentFromPath(subPath);
      if res.Err? {
        return Failed(res.fault);
      }
      var par := res.value;
      if par == null {
        return Failed(NullPointerException);
      }
      ghost var p := NodePath(subPath);
      assert p in Tree && Tree[p] == par;
      var child := par.AddSubcomponent(name);
      Tree := Graft(Tree, p + [name], child);
      r := Done;
      GraftValid((p, name));
      assert |p| < |p + [name]|;
    }

    /** The invariant after a child named `g.1` is added under the node at
        path `g.0`; the child is the node now at `g.0 + [g.1]`. */
    twostate lemma {:induction false} GraftValid(g: (seq<string>, string))
      requires old(Valid()) && g.0 in old(Tree)
      requires g.0 + [g.1] in Tree && fresh(Tree[g.0 + [g.1]])
      requires Tree[g.0 + [g.1]].name == g.1 && Tree[g.0 + [g.1]].parent == old(Tree)[g.0]
      requires Tree[g.0 + [g.1]].subcomponents == map[]
      requires old(Tree)[g.0].subcomponents == old(Tree[g.0].subcomponents)[g.1 := Tree[g.0 + [g.1]]]
      requires old(Tree)[g.0].parent == old(Tree[g.0].parent)
      requires forall c :: c in old(Tree).Values && c != old(Tree)[g.0] ==>
        c.subcomponents == old(c.subcomponents) && c.parent == old(c.parent)
      requires components == old(components) && tickets == old(tickets) && counter.next == old(counter.next)
      requires Tree == Graft(old(Tree), g.0 + [g.1], Tree[g.0 + [g.1]])
      ensures Valid()
    {
      var p, name := g.0, g.1;
      var q := p + [name];
      assert |p| < |p + [name]|;
      forall k | k in Tree && k != q
        ensures k in old(Tree) && !(q <= k) && Tree[k] == old(Tree)[k]
      {
      }
      assert RootsOk() by {
        forall r | [r] in Tree || r in components
          ensures [r] in Tree && Tree[[r]] == old(Tree)[[r]] && r in components
        {
          assert |[r]| < |q|;
        }
      }
      GraftChildren(g);
      GraftLinks(g);
    }

    twostate lemma {:induction false} GraftChildren(g: (seq<string>, string))
      requires old(Valid()) && g.0 in old(Tree)
      requires g.0 + [g.1] in Tree && fresh(Tree[g.0 + [g.1]])
      requires Tree[g.0 + [g.1]].subcomponents == map[]
      requires old(Tree)[g.0].subcomponents == old(Tree[g.0].subcomponents)[g.1 := Tree[g.0 + [g.1]]]
      requires forall c :: c in old(Tree).Values && c != old(Tree)[g.0] ==> c.subcomponents == old(c.subcomponents)
      requires Tree == Graft(old(Tree), g.0 + [g.1], Tree[g.0 + [g.1]])
      ensures ChildrenOk()
    {
      var p, name := g.0, g.1;
      var q := p + [name];
      forall k, n | k in Tree && n in Tree[k].subcomponents
        ensures k + [n] in Tree && Tree[k + [n]] == Tree[k].subcomponents[n]
      {
        if k != q {
          assert k in old(Tree) && !(q <= k) && Tree[k] == old(Tree)[k];
          if k == p {
            if n != name {
              NotUnderSibling(p, name, n);
            }
          } else {
            assert old(Tree)[k] != old(Tree)[p];
            NotUnderGraft(p, name, k, n);
          }
        }
      }
    }

    twostate lemma {:induction false} GraftLinks(g: (seq<string>, string))
      requires old(Valid()) && g.0 in old(Tree)
      requires g.0 + [g.1] in Tree && fresh(Tree[g.0 + [g.1]])
      requires Tree[g.0 + [g.1]].name == g.1 && Tree[g.0 + [g.1]].parent == old(Tree)[g.0]
      requires old(Tree)[g.0].subcomponents == old(Tree[g.0].subcomponents)[g.1 := Tree[g.0 + [g.1]]]
      requires old(Tree)[g.0].parent == old(Tree[g.0].parent)
      requires forall c :: c in old(Tree).Values && c != old(Tree)[g.0] ==>
        c.subcomponents == old(c.subcomponents) && c.parent == old(c.parent)
      requires Tree == Graft(old(Tree), g.0 + [g.1], Tree[g.0 + [g.1]])
      ensures LinksOk() && DistinctNodes()
    {
      var p, name := g.0, g.1;
      var q := p + [name];
      assert |p| < |p + [name]|;
      forall k, n | k != [] && k + [n] in Tree
        ensures k in Tree && n in Tree[k].subcomponents
        ensures Tree[k + [n]].name == n && Tree[k + [n]].parent == Tree[k]
      {
        if k + [n] == q {
          AppendCancel(k, n, p, name);
        } else {
          assert k + [n] in old(Tree) && !(q <= k + [n]);
          PrefixOfSnoc(q, k, n);
        }
      }
      assert DistinctNodes() by {
        forall k, l | k in Tree && l in Tree && Tree[k] == Tree[l] ensures k == l {
          if k != q && l != q {
            assert Tree[k] == old(Tree)[k] && Tree[l] == old(Tree)[l];
          }
        }
      }
    }

    /** Appending one segment is injective. */
    lemma {:induction false} AppendCancel(k: seq<string>, n: string, p: seq<string>, m: string)
      ensures k + [n] == p + [m] ==> k == p && n == m
    {
      if k + [n] == p + [m] {
        assert k == (k + [n])[..|k|];
        assert p == (p + [m])[..|p|];
        assert n == (k + [n])[|k|];
      }
    }

    /** A sibling's path is not under `p + [name]`. */
    lemma {:induction false} NotUnderSibling(p: seq<string>, name: string, n: string)
      requires n != name
      ensures !(p + [name] <= p + [n])
    {
      assert (p + [n])[|p|] == n;
    }

    /** A child path of a path outside the graft, other than `p`, is outside
        too. */
    lemma {:induction false} NotUnderGraft(p: seq<string>, name: string, k: seq<string>, n: string)
      requires !(p + [name] <= k) && k != p
      ensures !(p + [name] <= k + [n])
    {
      PrefixOfSnoc(p + [name], k, n);
      AppendCancel(k, n, p, name);
    }

    /** The direct children of the node at `p`, read off the tree. */
    ghost function ChildrenAt(p: seq<string>): set<Component>
      reads this
    {
      set k | k in Tree && |k| == |p| + 1 && k[..|p|] == p :: Tree[k]
    }

    /** The children of the node a path resolves to. */
    method GetSubComponents(subPath: string) returns (r: Result<set<Component>>)
      requires Valid()
      ensures Resolve(subPath).Err? ==> r == Err(Resolve(subPath).fault)
      ensures Resolve(subPath) == Ok(null) ==> r == Err(NullPointerException)
      ensures Resolve(subPath).Ok? && Resolve(subPath).value != null ==>
        r == Ok(ChildrenAt(NodePath(subPath)))
    {
      var res := GetComponentFromPath(subPath);
      if res.Err? {
        return Err(res.fault);
      }
      var par := res.value;
      if par == null {
        return Err(NullPointerException);
      }
      var children := par.subcomponents.Values;
      ghost var p := NodePath(subPath);
      assert p in Tree && Tree[p] == par;
      assert children == ChildrenAt(p) by {
        forall c | c in children ensures c in ChildrenAt(p) {
          var n :| n in par.subcomponents && par.subcomponents[n] == c;
          assert (p + [n])[..|p|] == p;
        }
        forall c | c in ChildrenAt(p) ensures c in children {
          var k :| k in Tree && |k| == |p| + 1 && k[..|p|] == p && Tree[k] == c;
          assert p + [k[|p|]] == k;
        }
      }
      r := Ok(children);
    }

    /** The name of the parent of the node a path resolves to. A root has no
        parent, and its null parent is dereferenced. */
    method GetParentComponent(subPath: string) returns (r: Result<string>)
      requires Valid()
      ensures Resolve(subPath).Err? ==> r == Err(Resolve(subPath).fault)
      ensures Resolve(subPath) == Ok(null) ==> r == Err(NullPointerException)
      ensures Resolve(subPath).Ok? && Resolve(subPath).value != null ==>
        r == if |NodePath(subPath)| == 1 then Err(NullPointerException)
             else Ok(NodePath(subPath)[|NodePath(subPath)| - 2])
    {
      var res := GetComponentFromPath(subPath);
      if res.Err? {
        return Err(res.fault);
      }
      var par := res.value;
      if par == null {
        return Err(NullPointerException);
      }
      ghost var p := NodePath(subPath);
      assert p in Tree && Tree[p] == par;
      if |p| == 1 {
        assert p == [p[0]];
      } else {
        assert p[..|p| - 1] + [p[|p| - 1]] == p;
        NameIsLast(p[..|p| - 1]);
      }
      if par.parent == null {
        return Err(NullPointerException);
      }
      r := Ok(par.parent.name);
    }

    // -------------------------------------------------------------------------
    // Tickets

    /** Opens a ticket: the path is resolved first, then the user must exist
        and play Reporter. The new ticket takes the next number. */
    method OpenTicket(userName: string, subPath: string, description: string, severity: Severity)
      returns (r: Result<int>)
      requires Valid()
      modifies this`tickets, counter
      ensures Valid()
      ensures old(Resolve(subPath)).Err? ==> r == Err(old(Resolve(subPath)).fault)
      ensures old(Resolve(subPath)).Ok? && userName !in users ==> r == Err(TicketException)
      ensures old(Resolve(subPath)).Ok? && userName in users && Reporter !in users[userName].roles ==>
        r == Err(TicketException)
      ensures r.Ok? <==> old(Resolve(subPath)).Ok? && userName in users && Reporter in users[userName].roles
      ensures r.Err? ==> tickets == old(tickets) && counter.next == old(counter.next)
      ensures r.Ok? ==>
        && r.value == old(counter.next) && counter.next == r.value + 1
        && (forall k :: k in old(tickets) ==> k < r.value)
        && r.value in tickets && fresh(tickets[r.value])
        && tickets == old(tickets)[r.value := tickets[r.value]]
        && tickets[r.value].number == r.value
        && tickets[r.value].state == Open && tickets[r.value].assignee == null
        && tickets[r.value].solution == None
        && tickets[r.value].author == users[userName]
        && tickets[r.value].component == old(Resolve(subPath)).value
        && tickets[r.value].description == description && tickets[r.value].severity == severity
      ensures old(NoneAssigned()) ==> NoneAssigned()
    {
      var res := GetComponentFromPath(subPath);
      if res.Err? {
        return Err(res.fault);
      }
      if userName !in users {
        return Err(TicketException);
      }
      var user := users[userName];
      if Reporter !in user.roles {
        return Err(TicketException);
      }
      var tic := new Ticket(user, res.value, description, severity, counter);
      tickets := tickets[tic.number := tic];
      r := Ok(tic.number);
      ForestKept();
    }

    /** The ticket with that number, or none (null). */
    function GetTicket(id: int): (r: Option<Ticket>)
      requires Valid()
      reads this, counter, Tree.Values
      ensures r.Some? <==> 1 <= id < counter.next
      ensures r.Some? ==> r.value.number == id && tickets[id] == r.value
    {
      if id in tickets then Some(tickets[id]) else None
    }

    /** The stored tickets from number `k` on, in ascending order. */
    function TicketsFrom(k: int): (r: seq<Ticket>)
      requires Valid() && 1 <= k <= counter.next
      reads this, counter, Tree.Values
      ensures |r| == counter.next - k
      ensures forall i :: 0 <= i < |r| ==> r[i].number == k + i && tickets[k + i] == r[i]
      decreases counter.next - k
    {
      if k == counter.next then [] else [tickets[k]] + TicketsFrom(k + 1)
    }

    /** All the tickets, ordered by number (the order of the sorted map). */
    function AllTickets(): (r: seq<Ticket>)
      requires Valid()
      reads this, counter, Tree.Values
      ensures |r| == |tickets|
      ensures forall i :: 0 <= i < |r| ==> r[i].number in tickets && tickets[r[i].number] == r[i]
      ensures forall i, j :: 0 <= i < j < |r| ==> r[i].number < r[j].number
      ensures forall k :: k in tickets ==> tickets[k] in r
    {
      var r := TicketsFrom(1);
      assert forall k :: k in tickets ==> r[k - 1] == tickets[k];
      r
    }

    /** Assigns a ticket to a Maintainer. Only the assignee changes: the state
        is not set to Assigned. */
    method AssignTicket(id: int, userName: string) returns (r: Status)
      requires Valid()
      modifies if id in tickets then {tickets[id]} else {}
      ensures Valid()
      ensures r == (if id !in tickets || userName !in users || Maintainer !in users[userName].roles
                    then Failed(TicketException) else Done)
      ensures r.Done? ==> tickets[id].assignee == users[userName]
      ensures r.Failed? && id in tickets ==> tickets[id].assignee == old(tickets[id].assignee)
      ensures id in tickets ==>
        tickets[id].state == old(tickets[id].state) && tickets[id].solution == old(tickets[id].solution)
      ensures old(NoneAssigned()) ==> NoneAssigned()
    {
      if id !in tickets {
        return Failed(TicketException);
      }
      if userName !in users {
        return Failed(TicketException);
      }
      if Maintainer !in users[userName].roles {
        return Failed(TicketException);
      }
      tickets[id].SetAssignee(users[userName]);
      r := Done;
    }

    /** Closes an Assigned ticket with a solution text. Since no ticket is
        ever Assigned, in every reachable state this fails. */
    method CloseTicket(id: int, description: string) returns (r: Status)
      requires Valid()
      modifies if id in tickets then {tickets[id]} else {}
      ensures Valid()
      ensures r == (if id !in tickets || old(tickets[id].state) != Assigned then Failed(TicketException) else Done)
      ensures r.Done? ==>
        tickets[id].state == Closed && tickets[id].solution == Some(description) &&
        tickets[id].assignee == old(tickets[id].assignee)
      ensures r.Failed? && id in tickets ==>
        && tickets[id].state == old(tickets[id].state) && tickets[id].solution == old(tickets[id].solution)
        && tickets[id].assignee == old(tickets[id].assignee)
      ensures old(NoneAssigned()) ==> r.Failed? && NoneAssigned()
    {
      if id !in tickets {
        return Failed(TicketException);
      }
      if tickets[id].state != Assigned {
        return Failed(TicketException);
      }
      tickets[id].Close(description);
      r := Done;
    }

    // -------------------------------------------------------------------------
    // Reports

    /** The users the tickets are assigned to. */
    ghost function AssigneeObjects(): set<User>
      reads this, tickets.Values
    {
      set k | k in tickets && tickets[k].assignee != null :: tickets[k].assignee
    }

    /** What the reports read of the tickets from number `k` on, in number
        order. */
    function FactsFrom(k: int): (r: seq<Reports.TicketFacts>)
      requires Valid() && 1 <= k <= counter.next
      reads this, counter, Tree.Values, tickets.Values, AssigneeObjects()
      ensures |r| == counter.next - k
      ensures forall i :: 0 <= i < |r| ==> r[i] == Snapshot(tickets[k + i])
      decreases counter.next - k
    {
      if k == counter.next then [] else [Snapshot(tickets[k])] + FactsFrom(k + 1)
    }

    /** What the reports read: every ticket, in number order. */
    function Facts(): (r: seq<Reports.TicketFacts>)
      requires Valid()
      reads this, counter, Tree.Values, tickets.Values, AssigneeObjects()
      ensures |r| == |tickets|
      ensures forall k :: k in tickets ==> r[k - 1] == Snapshot(tickets[k])
    {
      FactsFrom(1)
    }

    /** Every ticket has an assignee exactly when every fact names one. */
    lemma {:induction false} FactsAssigned()
      requires Valid()
      ensures Reports.AllAssigned(Facts()) <==> forall k :: k in tickets ==> tickets[k].assignee != null
    {
    }

    /** The number of tickets per severity, over the tickets in the given
        state, or over all tickets when none (null) is given. Only the
        severities that occur are keys, and the counts add up to the number
        of tickets counted. */
    function CountBySeverityOfState(stateP: Option<State>): (r: map<Severity, nat>)
      requires Valid()
      reads this, counter, Tree.Values, tickets.Values, AssigneeObjects()
      ensures forall s :: s in r <==> |Reports.SelectedWith(Facts(), stateP, s)| > 0
      ensures forall s :: s in r ==> r[s] == |Reports.SelectedWith(Facts(), stateP, s)|
      ensures Reports.Total(r) == |Reports.SelectedAll(Facts(), stateP)|
      ensures forall s :: s in r ==> r[s] >= 1
      ensures Reports.Total(r) <= |tickets|
      ensures stateP.None? ==> Reports.Total(r) == |tickets|
    {
      var facts := Facts();
      Reports.GroupBySeverityCounts(facts, stateP);
      Reports.CountsSumToSelected(facts, stateP);
      Reports.GroupBySeverity(facts, stateP)
    }

    /** One "name:NNN" line per assignee, with that assignee's ticket count;
        an unassigned ticket makes the report dereference null. */
    function TopMaintainers(): (r: Result<set<string>>)
      requires Valid()
      reads this, counter, Tree.Values, tickets.Values, AssigneeObjects()
      ensures r.Err? <==> exists k :: k in tickets && tickets[k].assignee == null
      ensures r.Err? ==> r.fault == NullPointerException
      ensures r.Ok? ==>
        forall name :: name in Reports.Assignees(Facts()) ==>
          Reports.Entry(name, |Reports.AssignedTo(Facts(), name)|) in r.value
      ensures r.Ok? ==>
        forall line :: line in r.value ==>
          exists name :: name in Reports.Assignees(Facts()) && line == Reports.Entry(name, |Reports.AssignedTo(Facts(), name)|)
      ensures r.Ok? ==> |r.value| == |Reports.Assignees(Facts())|
    {
      var facts := Facts();
      FactsAssigned();
      Reports.TopMaintainers(facts)
    }
  }

  /** The prefixes of `k + [n]` are the prefixes of `k` and `k + [n]` itself. */
  lemma {:induction false} PrefixOfSnoc<T>(q: seq<T>, k: seq<T>, n: T)
    ensures q <= k + [n] <==> q <= k || q == k + [n]
  {
  }
}
