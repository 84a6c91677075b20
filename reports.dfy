/** The two reports over the stored tickets, as the Java stream pipelines
    compute them: a count of tickets per severity, and one "name:NNN" line per
    assignee. Both are stated over an arbitrary sequence of tickets (the
    values of a ticket map in id order), not only over states the tracker can
    reach. */
module Reports {
  import opened Wrappers
  import opened Tickets

  /** What the reports read of one ticket: its severity, its state and the
      name of its assignee (None for a ticket nobody is assigned to). */
  datatype TicketFacts = TicketFacts(severity: Severity, state: State, assignee: Option<string>)

  // ---------------------------------------------------------------------------
  // countBySeverityOfState

  /** The filter: tickets in the given state, or every ticket when no state
      (null) is given. */
  predicate Selected(t: TicketFacts, stateP: Option<State>)
  {
    stateP.None? || t.state == stateP.value
  }

  /** The positions of the selected tickets of severity `s`. */
  function SelectedWith(xs: seq<TicketFacts>, stateP: Option<State>, s: Severity): set<int>
  {
    set i | 0 <= i < |xs| && Selected(xs[i], stateP) && xs[i].severity == s
  }

  /** The positions of the selected tickets. */
  function SelectedAll(xs: seq<TicketFacts>, stateP: Option<State>): set<int>
  {
    set i | 0 <= i < |xs| && Selected(xs[i], stateP)
  }

  /** The stream fold `groupingBy(severity, TreeMap::new, counting())` after
      the state filter: tickets are taken in order, and the count under a
      ticket's severity is created at 1 or incremented. */
  function GroupBySeverity(xs: seq<TicketFacts>, stateP: Option<State>): (r: map<Severity, nat>)
    ensures forall s :: s in r ==> 1 <= r[s] <= |xs|
  {
    if xs == [] then map[]
    else
      var m := GroupBySeverity(xs[..|xs| - 1], stateP);
      var t := xs[|xs| - 1];
      if !Selected(t, stateP) then m
      else m[t.severity := (if t.severity in m then m[t.severity] else 0) + 1]
  }

  /** The count under a severity is the number of selected tickets of that
      severity, and exactly the severities that occur are keys. */
  lemma {:induction false} GroupBySeverityCounts(xs: seq<TicketFacts>, stateP: Option<State>)
    ensures forall s :: s in GroupBySeverity(xs, stateP) <==> |SelectedWith(xs, stateP, s)| > 0
    ensures forall s :: s in GroupBySeverity(xs, stateP) ==>
              GroupBySeverity(xs, stateP)[s] == |SelectedWith(xs, stateP, s)|
  {
    if xs != [] {
      GroupBySeverityCounts(xs[..|xs| - 1], stateP);
      forall s {
        SelectedWithSnoc(xs, stateP, s);
      }
    }
  }

  lemma {:induction false} SelectedWithSnoc(xs: seq<TicketFacts>, stateP: Option<State>, s: Severity)
    requires xs != []
    ensures var n := |xs| - 1;
      |SelectedWith(xs, stateP, s)| == |SelectedWith(xs[..n], stateP, s)| +
        (if Selected(xs[n], stateP) && xs[n].severity == s then 1 else 0)
  {
    var n := |xs| - 1;
    var before, after := SelectedWith(xs[..n], stateP, s), SelectedWith(xs, stateP, s);
    forall i ensures i in after <==> i in before || (Selected(xs[n], stateP) && xs[n].severity == s && i == n) {
      if 0 <= i < n {
        assert xs[..n][i] == xs[i];
      }
    }
    CardinalityOfSnoc(before, after, n, Selected(xs[n], stateP) && xs[n].severity == s);
  }

  lemma {:induction false} SelectedAllSnoc(xs: seq<TicketFacts>, stateP: Option<State>)
    requires xs != []
    ensures var n := |xs| - 1;
      |SelectedAll(xs, stateP)| == |SelectedAll(xs[..n], stateP)| + (if Selected(xs[n], stateP) then 1 else 0)
  {
    var n := |xs| - 1;
    var before, after := SelectedAll(xs[..n], stateP), SelectedAll(xs, stateP);
    forall i ensures i in after <==> i in before || (Selected(xs[n], stateP) && i == n) {
      if 0 <= i < n {
        assert xs[..n][i] == xs[i];
      }
    }
    CardinalityOfSnoc(before, after, n, Selected(xs[n], stateP));
  }

  /** A set that gains at most one new element grows by one exactly when it
      gains it. */
  lemma {:induction false} CardinalityOfSnoc(before: set<int>, after: set<int>, n: int, added: bool)
    requires n !in before
    requires forall i :: i in after <==> i in before || (added && i == n)
    ensures |after| == |before| + (if added then 1 else 0)
  {
    var grown := if added then before + {n} else before;
    forall i ensures i in after <==> i in grown {
    }
    assert after == grown;
  }

  /** The value under `s`, or 0 when `s` is not a key. */
  function CountFor(m: map<Severity, nat>, s: Severity): nat
  {
    if s in m then m[s] else 0
  }

  /** The sum of the counts of a severity map. */
  function Total(m: map<Severity, nat>): nat
  {
    CountFor(m, Blocking) + CountFor(m, Critical) + CountFor(m, Major) + CountFor(m, Minor) +
    CountFor(m, Cosmetic)
  }

  /** The counts add up to the number of selected tickets; with no state
      given, to the number of tickets. */
  lemma {:induction false} CountsSumToSelected(xs: seq<TicketFacts>, stateP: Option<State>)
    ensures Total(GroupBySeverity(xs, stateP)) == |SelectedAll(xs, stateP)|
    ensures |SelectedAll(xs, stateP)| <= |xs|
    ensures stateP.None? ==> |SelectedAll(xs, stateP)| == |xs|
  {
    if xs != [] {
      var n := |xs| - 1;
      CountsSumToSelected(xs[..n], stateP);
      SelectedAllSnoc(xs, stateP);
      var m, m' := GroupBySeverity(xs[..n], stateP), GroupBySeverity(xs, stateP);
      var t := xs[n];
      if Selected(t, stateP) {
        assert m' == m[t.severity := CountFor(m, t.severity) + 1];
        TotalOfIncrement(m, t.severity);
      } else {
        assert m' == m;
      }
    }
  }

  /** Counting one more ticket under one severity adds one to the total. */
  lemma {:induction false} TotalOfIncrement(m: map<Severity, nat>, s: Severity)
    ensures Total(m[s := CountFor(m, s) + 1]) == Total(m) + 1
  {
    var m' := m[s := CountFor(m, s) + 1];
    assert CountFor(m', s) == CountFor(m, s) + 1;
    forall u | u != s ensures CountFor(m', u) == CountFor(m, u) {
    }
  }

  /** Severity declaration order. */
  function Ordinal(s: Severity): nat
  {
    match s
    case Blocking => 0
    case Critical => 1
    case Major => 2
    case Minor => 3
    case Cosmetic => 4
  }

  /** The entries of a severity map in the order a TreeMap keyed by Severity
      iterates them. */
  function SortedEntries(m: map<Severity, nat>): (r: seq<(Severity, nat)>)
    ensures forall i, j :: 0 <= i < j < |r| ==> Ordinal(r[i].0) < Ordinal(r[j].0)
    ensures forall i :: 0 <= i < |r| ==> r[i].0 in m && m[r[i].0] == r[i].1
    ensures forall s :: s in m ==> (s, m[s]) in r
  {
    EverySeverityListed();
    EntriesFrom(m, AllSeverities)
  }

  /** The severities in declaration order. */
  const AllSeverities: seq<Severity> := [Blocking, Critical, Major, Minor, Cosmetic]

  lemma EverySeverityListed()
    ensures forall s: Severity :: s in AllSeverities
  {
    forall s: Severity ensures s in AllSeverities {
      assert AllSeverities[Ordinal(s)] == s;
    }
  }

  function EntriesFrom(m: map<Severity, nat>, order: seq<Severity>): (r: seq<(Severity, nat)>)
    requires forall i, j :: 0 <= i < j < |order| ==> Ordinal(order[i]) < Ordinal(order[j])
    ensures forall i :: 0 <= i < |r| ==> r[i].0 in order
    ensures forall i, j :: 0 <= i < j < |r| ==> Ordinal(r[i].0) < Ordinal(r[j].0)
    ensures forall i :: 0 <= i < |r| ==> r[i].0 in m && m[r[i].0] == r[i].1
    ensures forall s :: s in m && s in order ==> (s, m[s]) in r
  {
    if order == [] then []
    else
      var rest := EntriesFrom(m, order[1..]);
      if order[0] !in m then rest
      else
        var r := [(order[0], m[order[0]])] + rest;
        EntriesConsSorted(r, order);
        r
  }

  /** Putting the entry of the first severity of an ordered list in front of
      entries drawn, in order, from the rest of the list keeps them ordered. */
  lemma {:induction false} EntriesConsSorted(r: seq<(Severity, nat)>, order: seq<Severity>)
    requires order != [] && r != [] && r[0].0 == order[0]
    requires forall i, j :: 0 <= i < j < |order| ==> Ordinal(order[i]) < Ordinal(order[j])
    requires forall i :: 1 <= i < |r| ==> r[i].0 in order[1..]
    requires forall i, j :: 1 <= i < j < |r| ==> Ordinal(r[i].0) < Ordinal(r[j].0)
    ensures forall i, j :: 0 <= i < j < |r| ==> Ordinal(r[i].0) < Ordinal(r[j].0)
  {
    forall j | 1 <= j < |r| ensures Ordinal(r[0].0) < Ordinal(r[j].0) {
      var k :| 0 <= k < |order[1..]| && order[1..][k] == r[j].0;
      assert order[k + 1] == r[j].0;
    }
  }

  // ---------------------------------------------------------------------------
  // topMaintainers

  /** The positions of the tickets assigned to `name`. */
  function AssignedTo(xs: seq<TicketFacts>, name: string): set<int>
  {
    set i | 0 <= i < |xs| && xs[i].assignee == Some(name)
  }

  /** The names of the assignees. */
  function Assignees(xs: seq<TicketFacts>): set<string>
  {
    set i | 0 <= i < |xs| && xs[i].assignee.Some? :: xs[i].assignee.value
  }

  predicate AllAssigned(xs: seq<TicketFacts>)
  {
    forall i :: 0 <= i < |xs| ==> xs[i].assignee.Some?
  }

  /** The stream fold `groupingBy(t -> t.getAssignee().getName(), counting())`:
      the first ticket without an assignee makes it dereference null. */
  function GroupByAssignee(xs: seq<TicketFacts>): (r: Result<map<string, nat>>)
    ensures r.Err? ==> r.fault == NullPointerException
    ensures r.Ok? ==> forall name :: name in r.value ==> 1 <= r.value[name] <= |xs|
  {
    if xs == [] then Ok(map[])
    else
      match GroupByAssignee(xs[..|xs| - 1])
      case Err(e) => Err(e)
      case Ok(m) =>
        var t := xs[|xs| - 1];
        if t.assignee.None? then Err(NullPointerException)
        else
          var name := t.assignee.value;
          Ok(m[name := (if name in m then m[name] else 0) + 1])
  }

  /** The grouping fails exactly when some ticket has no assignee; otherwise
      its keys are the assignees and each count is the number of tickets
      assigned to that name. */
  lemma {:induction false} GroupByAssigneeCounts(xs: seq<TicketFacts>)
    ensures GroupByAssignee(xs).Err? <==> !AllAssigned(xs)
    ensures GroupByAssignee(xs).Err? ==> GroupByAssignee(xs).fault == NullPointerException
    ensures GroupByAssignee(xs).Ok? ==> GroupByAssignee(xs).value.Keys == Assignees(xs)
    ensures GroupByAssignee(xs).Ok? ==>
              forall name :: name in GroupByAssignee(xs).value ==>
                GroupByAssignee(xs).value[name] == |AssignedTo(xs, name)|
  {
    if xs != [] {
      var n := |xs| - 1;
      var init := xs[..n];
      GroupByAssigneeCounts(init);
      AllAssignedSnoc(xs);
      if AllAssigned(xs) {
        var m := GroupByAssignee(init).value;
        var name := xs[n].assignee.value;
        var m' := GroupByAssignee(xs).value;
        assert m' == m[name := (if name in m then m[name] else 0) + 1];
        AssigneesSnoc(xs);
        forall other | other in m'
          ensures m'[other] == |AssignedTo(xs, other)|
        {
          AssignedToSnoc(xs, other);
        }
      }
    }
  }

  lemma {:induction false} AllAssignedSnoc(xs: seq<TicketFacts>)
    requires xs != []
    ensures AllAssigned(xs) <==> AllAssigned(xs[..|xs| - 1]) && xs[|xs| - 1].assignee.Some?
  {
  }

  lemma {:induction false} AssigneesSnoc(xs: seq<TicketFacts>)
    requires xs != [] && xs[|xs| - 1].assignee.Some?
    ensures Assignees(xs) == Assignees(xs[..|xs| - 1]) + {xs[|xs| - 1].assignee.value}
  {
  }

  lemma {:induction false} AssignedToSnoc(xs: seq<TicketFacts>, name: string)
    requires xs != []
    ensures var n := |xs| - 1;
      |AssignedTo(xs, name)| ==
        |AssignedTo(xs[..n], name)| + (if xs[n].assignee == Some(name) then 1 else 0)
  {
    var n := |xs| - 1;
    assert forall i :: 0 <= i < n ==> xs[..n][i] == xs[i];
    var before := AssignedTo(xs[..n], name);
    assert n !in before;
    assert AssignedTo(xs, name) == before + (if xs[n].assignee == Some(name) then {n} else {});
  }

  /** One line of the report: the name, a colon, and the count written with
      `%03d`. */
  function Entry(name: string, count: nat): (r: string)
    ensures |r| > |name| && r[..|name|] == name && r[|name|] == ':'
    ensures AllDigits(r[|name| + 1..]) && DecimalValue(r[|name| + 1..]) == count
  {
    var line := name + ":" + Pad3(count);
    Pad3RoundTrip(count);
    assert line[|name| + 1..] == Pad3(count);
    line
  }

  /** `topMaintainers()`: one line per assignee. The Java list is built from
      a hash map, so its order is not modelled; the lines are a set. The
      report fails (a null assignee is dereferenced) exactly when a ticket
      has no assignee; otherwise it holds, for every assignee, the line with
      that assignee's ticket count, nothing else, and exactly one line per
      assignee. */
  function TopMaintainers(xs: seq<TicketFacts>): (r: Result<set<string>>)
    ensures r.Err? <==> !AllAssigned(xs)
    ensures r.Err? ==> r.fault == NullPointerException
    ensures r.Ok? ==>
              forall name :: name in Assignees(xs) ==> Entry(name, |AssignedTo(xs, name)|) in r.value
    ensures r.Ok? ==>
              forall line :: line in r.value ==>
                exists name :: name in Assignees(xs) && line == Entry(name, |AssignedTo(xs, name)|)
    ensures r.Ok? ==> |r.value| == |Assignees(xs)|
  {
    GroupByAssigneeCounts(xs);
    match GroupByAssignee(xs)
    case Err(e) => Err(e)
    case Ok(m) =>
      EntriesOneToOne(m, m.Keys);
      Ok(Lines(m, m.Keys))
  }

  /** The lines written for a set of names. */
  function Lines(m: map<string, nat>, names: set<string>): set<string>
    requires names <= m.Keys
  {
    set name | name in names :: Entry(name, m[name])
  }

  /** Distinct names give distinct lines, so there are as many lines as
      names. */
  lemma {:induction false} EntriesOneToOne(m: map<string, nat>, names: set<string>)
    requires names <= m.Keys
    ensures |Lines(m, names)| == |names|
    decreases names
  {
    if names != {} {
      var name :| name in names;
      var rest := names - {name};
      EntriesOneToOne(m, rest);
      var line := Entry(name, m[name]);
      assert Lines(m, names) == Lines(m, rest) + {line};
      if line in Lines(m, rest) {
        var other :| other in rest && Entry(other, m[other]) == line;
        EntryInjective(other, m[other], name, m[name]);
      }
    } else {
      assert Lines(m, names) == {};
    }
  }

  /** A line determines the name and the count: the count's digits hold no
      colon, so the last colon of the line separates the two. */
  lemma {:induction false} EntryInjective(a: string, m: nat, b: string, n: nat)
    requires Entry(a, m) == Entry(b, n)
    ensures a == b && m == n
  {
    SplitAtLastColon(a, Pad3(m), b, Pad3(n));
    Pad3RoundTrip(m);
    Pad3RoundTrip(n);
  }

  lemma {:induction false} SplitAtLastColon(a: string, d1: string, b: string, d2: string)
    requires AllDigits(d1) && AllDigits(d2)
    requires a + ":" + d1 == b + ":" + d2
    ensures a == b && d1 == d2
  {
    var s := a + ":" + d1;
    assert s[|a|] == ':' && s[|b|] == ':';
    if |a| != |b| {
      // the colon of the longer name prefix falls among the other's digits
      assert false;
    }
    assert a == s[..|a|] == b;
    assert d1 == s[|a| + 1..] == d2;
  }

  // ---------------------------------------------------------------------------
  // String.format("%03d", n)

  predicate IsDigit(c: char)
  {
    '0' <= c <= '9'
  }

  predicate AllDigits(s: string)
  {
    forall i :: 0 <= i < |s| ==> IsDigit(s[i])
  }

  function DigitChar(d: nat): (c: char)
    requires d < 10
    ensures IsDigit(c)
  {
    ('0' as int + d) as char
  }

  /** The decimal digits of `n`, without leading zeros. */
  function Decimal(n: nat): (r: string)
    ensures |r| >= 1 && AllDigits(r)
    ensures n == 0 ==> r == "0"
    ensures n >= 1 ==> r[0] != '0'
  {
    if n < 10 then [DigitChar(n)] else Decimal(n / 10) + [DigitChar(n % 10)]
  }

  /** `String.format("%03d", n)`: the decimal digits, with zeros in front up
      to a width of three. */
  function Pad3(n: nat): (r: string)
    ensures AllDigits(r)
  {
    var d := Decimal(n);
    if |d| >= 3 then d else seq(3 - |d|, _ => '0') + d
  }

  /** The number a string of digits denotes. */
  function DecimalValue(s: string): nat
    requires AllDigits(s)
  {
    if s == [] then 0 else DecimalValue(s[..|s| - 1]) * 10 + (s[|s| - 1] as int - '0' as int)
  }

  lemma {:induction false} DecimalRoundTrip(n: nat)
    ensures DecimalValue(Decimal(n)) == n
  {
    if n >= 10 {
      DecimalRoundTrip(n / 10);
      var d := Decimal(n);
      assert d[..|d| - 1] == Decimal(n / 10);
    }
  }

  lemma {:induction false} LeadingZeros(k: nat, s: string)
    requires AllDigits(s)
    ensures AllDigits(seq(k, _ => '0') + s)
    ensures DecimalValue(seq(k, _ => '0') + s) == DecimalValue(s)
  {
    var z := seq(k, _ => '0');
    if s == [] {
      ZerosValue(k);
      assert z + s == z;
    } else {
      var n := |s| - 1;
      LeadingZeros(k, s[..n]);
      assert (z + s)[..|z + s| - 1] == z + s[..n];
    }
  }

  lemma {:induction false} ZerosValue(k: nat)
    ensures AllDigits(seq(k, _ => '0'))
    ensures DecimalValue(seq(k, _ => '0')) == 0
  {
    if k > 0 {
      ZerosValue(k - 1);
      assert seq(k, _ => '0')[..k - 1] == seq(k - 1, _ => '0');
    }
  }

  /** Reading the padded digits back gives the number; the text has at least
      three digits, exactly three below 1000, and no padding from 100 on. */
  lemma {:induction false} Pad3RoundTrip(n: nat)
    ensures DecimalValue(Pad3(n)) == n
    ensures |Pad3(n)| >= 3
    ensures n < 1000 ==> |Pad3(n)| == 3
    ensures n >= 100 ==> Pad3(n) == Decimal(n)
    ensures n >= 100 ==> Pad3(n)[0] != '0'
  {
    DecimalRoundTrip(n);
    var d := Decimal(n);
    if |d| < 3 {
      LeadingZeros(3 - |d|, d);
    }
    DecimalLength(n);
  }

  lemma {:induction false} DecimalLength(n: nat)
    ensures n >= 100 ==> |Decimal(n)| >= 3
    ensures n < 1000 ==> |Decimal(n)| <= 3
  {
    if n >= 10 {
      DecimalLength(n / 10);
      if n / 10 >= 10 {
        DecimalLength(n / 100);
      }
    }
  }
}
