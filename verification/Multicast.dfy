/** The membership change report of IGMPv3 and MLDv2: two source sets compared by filling and
    pruning a tree beside an eight-bit counter. Trees are ascending sequences of addresses. */
module Multicast {
  import opened Wrappers

  datatype Mode = Include | Exclude

  datatype Event = Create | Update | Delete | Query

  /** Record types 3 to 6; a query leaves the type zero. */
  datatype Kind = Untyped | ToInclude | ToExclude | Allow | Block

  datatype Report = Report(kind: Kind, count: nat, sources: seq<nat>)

  datatype Result = Sent(report: Report) | Nothing | Failed

  const MLD_MAX_SOURCES: nat := 89

  // ---------- ordered sets ----------

  ghost predicate Ascending(s: seq<nat>) {
    forall i, j :: 0 <= i < j < |s| ==> s[i] < s[j]
  }

  function Insert(t: seq<nat>, x: nat): seq<nat> {
    if t == [] || t[|t| - 1] < x then t + [x]
    else if t[|t| - 1] == x then t
    else Insert(t[..|t| - 1], x) + [t[|t| - 1]]
  }

  function Remove(t: seq<nat>, x: nat): seq<nat> {
    if t == [] then []
    else if t[|t| - 1] == x then t[..|t| - 1]
    else Remove(t[..|t| - 1], x) + [t[|t| - 1]]
  }

  /** The elements of b that are not in a, in order. */
  function Minus(b: seq<nat>, a: seq<nat>): seq<nat> {
    if b == [] then []
    else if b[|b| - 1] in a then Minus(b[..|b| - 1], a)
    else Minus(b[..|b| - 1], a) + [b[|b| - 1]]
  }

  // ---------- what is reported ----------

  function Listed(kind: Kind, sources: seq<nat>): Report { Report(kind, |sources| % 256, sources) }

  /** The first difference if there is one, else the opposite one, else no report. */
  function Differences(first: Kind, second: Kind, a: seq<nat>, b: seq<nat>): Result {
    if Minus(b, a) != [] then Sent(Listed(first, Minus(b, a)))
    else if Minus(a, b) != [] then Sent(Listed(second, Minus(a, b)))
    else Nothing
  }

  function OrEmpty(b: Option<seq<nat>>): seq<nat> { if b.Some? then b.value else [] }

  /** A filter may be missing only where the new mode is INCLUDE from EXCLUDE, on deletion,
      or on a query. */
  predicate FilterGiven(was: Mode, now: Mode, b: Option<seq<nat>>, event: Event) {
    b.Some? || event.Delete? || event.Query? || (was.Exclude? && now.Include?)
  }

  function Change(was: Mode, a: seq<nat>, now: Mode, b: Option<seq<nat>>, event: Event): Result {
    var mode := if event.Delete? then Include else now;
    var list := if event.Delete? then [] else OrEmpty(b);
    if event.Query? then Sent(Listed(Untyped, []))
    else
      match (was, mode)
      case (Include, Include) =>
        if event.Delete? then Sent(Listed(ToInclude, list))
        else Differences(if event.Create? then ToInclude else Allow, Block, a, list)
      case (Include, Exclude) => Sent(Listed(ToExclude, list))
      case (Exclude, Include) => Sent(Listed(ToInclude, list))
      case (Exclude, Exclude) => Differences(Block, Allow, a, list)
  }

  // ---------- the trees filled and pruned ----------

  lemma {:induction false} MinusForm(b: seq<nat>, a: seq<nat>)
    ensures forall x :: x in Minus(b, a) <==> x in b && x !in a
    ensures Ascending(b) ==> Ascending(Minus(b, a))
  {
    if b != [] {
      var rest, last := b[..|b| - 1], b[|b| - 1];
      MinusForm(rest, a);
      assert b == rest + [last];
      if Ascending(b) {
        forall i | 0 <= i < |Minus(rest, a)| ensures Minus(rest, a)[i] < last {
          assert Minus(rest, a)[i] in rest;
        }
      }
    }
  }

  lemma InsertLast(t: seq<nat>, x: nat)
    requires forall i :: 0 <= i < |t| ==> t[i] < x
    ensures Insert(t, x) == t + [x]
  {}

  lemma {:induction false} RemoveForm(t: seq<nat>, x: nat)
    requires Ascending(t)
    ensures Remove(t, x) == Minus(t, [x])
    ensures |Remove(t, x)| == if x in t then |t| - 1 else |t|
  {
    if t != [] {
      var rest, last := t[..|t| - 1], t[|t| - 1];
      assert t == rest + [last];
      RemoveForm(rest, x);
      if last == x {
        assert x !in rest;
        MinusAbsent(rest, x);
      }
    }
  }

  lemma {:induction false} MinusAbsent(t: seq<nat>, x: nat)
    requires x !in t
    ensures Minus(t, [x]) == t
  {
    if t != [] {
      MinusAbsent(t[..|t| - 1], x);
      assert t == t[..|t| - 1] + [t[|t| - 1]];
    }
  }

  lemma {:induction false} MinusMore(b: seq<nat>, a: seq<nat>, x: nat)
    ensures Minus(Minus(b, a), [x]) == Minus(b, a + [x])
  {
    if b != [] {
      var rest, last := b[..|b| - 1], b[|b| - 1];
      MinusMore(rest, a, x);
      if last !in a {
        assert Minus(b, a)[..|Minus(b, a)| - 1] == Minus(rest, a);
      }
    }
  }

  lemma {:induction false} MinusNone(b: seq<nat>)
    ensures Minus(b, []) == b
  {
    if b != [] { MinusNone(b[..|b| - 1]); }
  }

  /** Fills an empty tree, counting in eight bits. */
  method Fill(xs: seq<nat>, start: nat) returns (tree: seq<nat>, sources: nat)
    requires Ascending(xs) && start == 0
    ensures tree == xs && sources == |xs| % 256
  {
    hide Insert;
    tree, sources := [], start;
    for k := 0 to |xs|
      invariant tree == xs[..k] && sources == k % 256
    {
      InsertLast(tree, xs[k]);
      tree := Insert(tree, xs[k]);
      sources := (sources + 1) % 256;
    }
    assert xs[..|xs|] == xs;
  }

  /** Takes out what the other tree also holds, counting down. */
  method Prune(t: seq<nat>, n: nat, xs: seq<nat>) returns (tree: seq<nat>, sources: nat)
    requires Ascending(t) && n == |t| % 256
    ensures tree == Minus(t, xs) && sources == |tree| % 256
  {
    tree, sources := t, n;
    MinusNone(t);
    assert xs[..0] == [];
    for k := 0 to |xs|
      invariant tree == Minus(t, xs[..k]) && Ascending(tree) && sources == |tree| % 256
    {
      RemoveForm(tree, xs[k]);
      MinusMore(t, xs[..k], xs[k]);
      assert xs[..k + 1] == xs[..k] + [xs[k]];
      MinusForm(t, xs[..k + 1]);
      if xs[k] in tree {
        Downcount(|tree|);
        tree := Remove(tree, xs[k]);
        sources := (sources + 255) % 256;
      } else {
        MinusAbsent(tree, xs[k]);
      }
    }
    assert xs[..|xs|] == xs;
  }

  lemma Downcount(n: nat)
    requires n > 0
    ensures (n % 256 + 255) % 256 == (n - 1) % 256
  {}

  /** The pair of differences: fills and prunes one tree, then the other. */
  method Compare(first: Kind, second: Kind, a: seq<nat>, b: seq<nat>)
      returns (kind: Kind, sources: nat, filter: seq<nat>)
    requires Ascending(a) && Ascending(b)
    ensures Differences(first, second, a, b)
         == if filter == [] then Nothing else Sent(Report(kind, sources, filter))
  {
    kind := first;
    filter, sources := Fill(b, 0);
    filter, sources := Prune(filter, sources, a);
    if filter != [] { return; }
    kind := second;
    filter, sources := Fill(a, sources);
    filter, sources := Prune(filter, sources, b);
  }

  /** What a report leaves in the two trees. */
  function Trees(r: Result): (seq<nat>, seq<nat>) {
    if !r.Sent? then ([], [])
    else if r.report.kind.Block? || r.report.kind.ToExclude? then ([], r.report.sources)
    else (r.report.sources, [])
  }

  class Reporter {
    /** Kept from one report to the next. */
    var allow: seq<nat>
    var block: seq<nat>

    constructor ()
      ensures allow == [] && block == []
    {
      allow, block := [], [];
    }

    /** The report on one change; what earlier reports left in the trees plays no part. */
    method Generate(was: Mode, a: seq<nat>, now: Mode, b: Option<seq<nat>>, event: Event) returns (r: Result)
      requires Ascending(a) && Ascending(OrEmpty(b)) && FilterGiven(was, now, b, event)
      modifies this
      ensures r == Change(was, a, now, b, event)
      ensures (allow, block) == if event.Query? then (old(allow), old(block)) else Trees(r)
    {
      var mode, list := now, b;
      if event.Delete? { mode, list := Include, None; }
      if event.Query? { return Sent(Report(Untyped, 0, [])); }
      allow, block := [], [];
      var kind, sources, filter := ToInclude, 0, [];
      if was.Include? && mode.Include? {
        if !event.Delete? {
          kind, sources, filter := Compare(if event.Create? then ToInclude else Allow, Block, a, list.value);
          if kind.Block? { block := filter; } else { allow := filter; }
          return if filter == [] then Nothing else Sent(Report(kind, sources, filter));
        }
      } else if was.Include? {
        kind := ToExclude;
        block, sources := Fill(list.value, 0);
        return Sent(Report(kind, sources, block));
      } else if mode.Include? {
        if list.Some? { allow, sources := Fill(list.value, 0); }
      } else {
        kind, sources, filter := Compare(Block, Allow, a, list.value);
        if kind.Block? { block := filter; } else { allow := filter; }
        return if filter == [] then Nothing else Sent(Report(kind, sources, filter));
      }
      r := Sent(Report(kind, sources, allow));
    }
  }

  /** MLD refuses long lists by the wrapped counter and then compares it with the number of
      addresses written, counted in eight bits as well. */
  function MldChecked(r: Result): Result {
    if !r.Sent? then r
    else if r.report.count > MLD_MAX_SOURCES then Failed
    else if |r.report.sources| % 256 != r.report.count then Failed
    else r
  }

  // ---------- what a report means ----------

  /** The sources a state asks for. */
  predicate Hears(mode: Mode, sources: seq<nat>, x: nat) {
    if mode.Include? then x in sources else x !in sources
  }

  /** What a listener of the report takes the new state to ask for (section 4.2.12 of
      RFC 3376): a whole new state, or sources to add or to drop. */
  predicate HeardAfter(mode: Mode, a: seq<nat>, r: Result, x: nat) {
    if !r.Sent? then Hears(mode, a, x)
    else
      match r.report.kind
      case Untyped => Hears(mode, a, x)
      case ToInclude => x in r.report.sources
      case ToExclude => x !in r.report.sources
      case Allow => Hears(mode, a, x) || x in r.report.sources
      case Block => Hears(mode, a, x) && x !in r.report.sources
  }

  ghost predicate Within(a: seq<nat>, b: seq<nat>) { forall x <- a :: x in b }

  ghost predicate Apart(a: seq<nat>, b: seq<nat>) { forall x <- a :: x !in b }

  ghost predicate Conveys(was: Mode, a: seq<nat>, now: Mode, b: seq<nat>, r: Result) {
    forall x :: HeardAfter(was, a, r, x) <==> Hears(now, b, x)
  }

  /** No report exactly when the two source sets are equal. */
  lemma NothingIffEqual(first: Kind, second: Kind, a: seq<nat>, b: seq<nat>)
    ensures Differences(first, second, a, b) == Nothing <==> Within(a, b) && Within(b, a)
  {
    MinusForm(a, b);
    MinusForm(b, a);
    assert Minus(b, a) != [] ==> Minus(b, a)[0] in Minus(b, a);
    assert Minus(a, b) != [] ==> Minus(a, b)[0] in Minus(a, b);
  }

  /** Where the mode stays, one difference is reported and the other is dropped: the report
      conveys the new state exactly when one set contains the other. */
  lemma UpdateConveysIff(mode: Mode, a: seq<nat>, b: seq<nat>)
    ensures Conveys(mode, a, mode, b, Change(mode, a, mode, Some(b), Update)) <==> Within(a, b) || Within(b, a)
  {
    MinusForm(a, b);
    MinusForm(b, a);
    var r := Change(mode, a, mode, Some(b), Update);
    assert Minus(b, a) != [] ==> Minus(b, a)[0] in Minus(b, a);
    if !Within(b, a) {
      var y :| y in b && y !in a;
      assert y in Minus(b, a);
      if !Within(a, b) {
        var x :| x in a && x !in b;
        assert HeardAfter(mode, a, r, x) != Hears(mode, b, x);
      }
    }
  }

  /** The first report of an INCLUDE group is a whole state made of the difference: it is the
      new state exactly when the sets are apart or the new one adds nothing. */
  lemma CreateConveysIff(a: seq<nat>, b: seq<nat>)
    ensures Conveys(Include, a, Include, b, Change(Include, a, Include, Some(b), Create)) <==>
            Apart(a, b) || Within(b, a)
  {
    MinusForm(a, b);
    MinusForm(b, a);
    var r := Change(Include, a, Include, Some(b), Create);
    assert Minus(b, a) != [] ==> Minus(b, a)[0] in Minus(b, a);
    if !Within(b, a) {
      var y :| y in b && y !in a;
      assert y in Minus(b, a);
      if !Apart(a, b) {
        var x :| x in a && x in b;
        assert HeardAfter(Include, a, r, x) != Hears(Include, b, x);
      }
    }
  }

  /** A change of mode or a deletion always conveys the new state. */
  lemma ModeChangeConveys(was: Mode, a: seq<nat>, now: Mode, b: Option<seq<nat>>, event: Event)
    requires !event.Query? && (event.Delete? || was != now)
    ensures var mode := if event.Delete? then Include else now;
            var list := if event.Delete? then [] else OrEmpty(b);
            Conveys(was, a, mode, list, Change(was, a, now, b, event))
  {}

  /** The counter is the number of listed sources in eight bits, so MLD's last check never
      fails a report; the number is the true one exactly for fewer than 256 sources. */
  lemma CounterAgrees(was: Mode, a: seq<nat>, now: Mode, b: Option<seq<nat>>, event: Event)
    ensures var r := Change(was, a, now, b, event);
            && r != Failed
            && (r.Sent? ==> r.report.count == |r.report.sources| % 256)
            && (r.Sent? ==> (r.report.count == |r.report.sources| <==> |r.report.sources| < 256))
            && (MldChecked(r) == Failed <==> r.Sent? && |r.report.sources| % 256 > MLD_MAX_SOURCES)
  {}
}
