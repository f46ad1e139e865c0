/**
 * The capture manager as a transition system (backend/capture.py): every step is one stretch of
 * code between two awaits, and any step that some coroutine is ready for may come next.
 */
module Captures {
  import opened Optional

  type Id = string
  type Server = string
  type Link = string

  const ANY := "any"

  // --- which links a capture reads ----------------------------------------------------------

  datatype Links = All | Only(names: set<Link>)

  /** `_covered`: an empty set of names stands for none recorded. */
  function Covered(iface: Link, names: set<Link>): Links {
    if names != {} then Only(names) else if iface == ANY then All else Only({iface})
  }

  /** `_overlap`: `All` when that is all of them. */
  function Overlap(a: Links, b: Links): Links {
    if a.All? then b else if b.All? then a else Only(a.names * b.names)
  }

  predicate Clash(a: Links, b: Links) { Overlap(a, b) != Only({}) }

  predicate ReadsLink(a: Links, l: Link) { a.All? || l in a.names }

  /** The check refuses exactly the pairs that some link would be read by both of. */
  lemma ClashIsASharedLink(iface: Link, names: set<Link>, iface': Link, names': set<Link>)
    ensures var a, b := Covered(iface, names), Covered(iface', names');
            Clash(a, b) <==> exists l :: ReadsLink(a, l) && ReadsLink(b, l)
  {
    var a, b := Covered(iface, names), Covered(iface', names');
    if a.All? && b.All? {
      assert ReadsLink(a, ANY) && ReadsLink(b, ANY);
    } else if a.All? || b.All? || Clash(a, b) {
      var shared := Overlap(a, b);
      var l :| l in shared.names;
      assert ReadsLink(a, l) && ReadsLink(b, l);
    } else {
      assert forall l :: l in a.names * b.names <==> l in a.names && l in b.names;
    }
  }

  // --- states -------------------------------------------------------------------------------

  datatype Status = Running | Stopping | Transferring | Completed | Failed

  predicate Active(s: Status) { s.Running? || s.Stopping? || s.Transferring? }

  /** What a record keeps of its request, and its status. */
  datatype Info = Info(server: Server, iface: Link, names: set<Link>, status: Status)

  /** Where a capture's monitor stands: not yet run, awaiting exit, collecting, closing its session. */
  datatype Phase = Created | Waiting | Collecting | Closing

  /** A delete under way: whether it awaits the monitor it cancelled, and holds the session. */
  datatype Deletion = Deletion(waits: bool, holds: bool)

  /**
   * All that the manager and its coroutines hold for one record object: whether `_captures` still
   * lists it, its interface set, its database row, its entries in `_processes` and `_tasks`; its
   * start suspended in `run_tcpdump`, its monitor, a cancel not yet delivered, its deletes; and
   * whether its SSH session is open, and has been sent an interrupt by a stop.
   */
  datatype Cell = Cell(info: Info, listed: bool, names: set<Link>, row: Option<Status>,
                       process: bool, task: bool, launching: bool, monitor: Option<Phase>,
                       cancelled: bool, deletions: map<nat, Deletion>, session: bool, interrupted: bool)

  type World = map<Id, Cell>

  datatype Event =
    | Start(id: Id, server: Server, iface: Link, names: set<Link>, maximum: int)
    | LaunchFails(id: Id)
    | LaunchWorks(id: Id)
    | Upload(id: Id)
    | Stop(id: Id)
    | Monitor(id: Id, ok: bool)
    | DeleteBegins(id: Id, token: nat)
    | DeleteCloses(id: Id, token: nat)
    | DeleteEnds(id: Id, token: nat)

  predicate Busy(c: Cell) { c.listed && Active(c.info.status) }

  function ActiveIds(w: World): set<Id> { set id | id in w && Busy(w[id]) }

  /** The links a capture is believed to read, and those it does. */
  function Believed(c: Cell): Links { Covered(c.info.iface, c.names) }

  function Truly(i: Info): Links { Covered(i.iface, i.names) }

  predicate HeldOn(c: Cell, server: Server, wanted: Links) {
    Busy(c) && c.info.server == server && Clash(wanted, Believed(c))
  }

  predicate Refused(w: World, server: Server, wanted: Links, maximum: int) {
    |ActiveIds(w)| >= maximum || exists id :: id in w && HeldOn(w[id], server, wanted)
  }

  // --- steps --------------------------------------------------------------------------------

  predicate Awaited(c: Cell, d: Deletion) { d.waits ==> c.monitor.None? }

  /** Some coroutine of the capture is about to take this step. */
  predicate ReadyIn(c: Cell, e: Event) {
    match e
    case Start(_, _, _, _, _) => false
    case LaunchFails(_) => c.launching
    case LaunchWorks(_) => c.launching
    case Upload(_) => false
    case Stop(_) => true
    case Monitor(_, _) => c.monitor.Some?
    case DeleteBegins(_, token) => token !in c.deletions
    case DeleteCloses(_, token) => token in c.deletions && c.deletions[token].holds && Awaited(c, c.deletions[token])
    case DeleteEnds(_, token) => token in c.deletions && !c.deletions[token].holds && Awaited(c, c.deletions[token])
  }

  predicate Ready(w: World, e: Event) {
    if e.Start? || e.Upload? then e.id !in w else e.id in w && ReadyIn(w[e.id], e)
  }

  function NewCell(i: Info): Cell {
    Cell(i, true, i.names, Some(i.status), false, false, i.status.Running?, None, false, map[], false, false)
  }

  function WithStatus(c: Cell, s: Status): Cell { c.(info := c.info.(status := s)) }

  function Persisted(c: Cell): Cell { c.(row := Some(c.info.status)) }

  /** The monitor's last lines: the closing row, its task and its interface set. */
  function Finished(c: Cell): Cell { Persisted(c).(task := false, names := {}, monitor := None) }

  /** A terminal status, then the session released if the monitor still owns it. */
  function Ended(c: Cell, s: Status): Cell {
    if c.process then WithStatus(c, s).(process := false, session := false, monitor := Some(Closing))
    else Finished(WithStatus(c, s))
  }

  /** The cancel arrives: a monitor that never ran, or was closing its session, just stops. */
  function Cancelled(c: Cell): Cell
    requires c.monitor.Some?
  {
    var c := c.(cancelled := false);
    if c.monitor.value.Created? || c.monitor.value.Closing? then c.(monitor := None) else Ended(c, Failed)
  }

  /** Its first line looks the capture up, and fails when a delete has been faster. */
  function Monitored(c: Cell, ok: bool): Cell
    requires c.monitor.Some?
  {
    if c.cancelled then Cancelled(c)
    else
      match c.monitor.value
      case Created => c.(monitor := if c.listed then Some(Waiting) else None)
      case Waiting =>
        if ok then Persisted(WithStatus(c, Transferring)).(monitor := Some(Collecting)) else Ended(c, Failed)
      case Collecting => Ended(c, if ok then Completed else Failed)
      case Closing => Finished(c)
  }

  function StepIn(c: Cell, e: Event): Cell
    requires ReadyIn(c, e)
  {
    match e
    case Start(_, _, _, _, _) => c
    case LaunchFails(_) => Persisted(WithStatus(c, Failed)).(launching := false)
    case LaunchWorks(_) =>
      c.(launching := false, process := true, task := true, session := true, monitor := Some(Created))
    case Upload(_) => c
    case Stop(_) =>
      if c.listed && c.info.status.Running? then Persisted(WithStatus(c, Stopping)).(interrupted := c.process) else c
    case Monitor(_, ok) => Monitored(c, ok)
    case DeleteBegins(_, token) =>
      c.(process := false, task := false, cancelled := c.cancelled || (c.task && c.monitor.Some?),
         deletions := c.deletions[token := Deletion(c.task, c.process)])
    case DeleteCloses(_, token) =>
      c.(session := false, deletions := c.deletions[token := c.deletions[token].(holds := false)])
    case DeleteEnds(_, token) =>
      c.(row := None, names := {}, listed := false, deletions := c.deletions - {token})
  }

  function Step(w: World, e: Event): World
    requires Ready(w, e)
  {
    match e
    case Start(id, server, iface, names, maximum) =>
      if Refused(w, server, Covered(iface, names), maximum) then w
      else w[id := NewCell(Info(server, iface, names, Running))]
    case Upload(id) => w[id := NewCell(Info("", "", {}, Completed))]
    case _ => w[e.id := StepIn(w[e.id], e)]
  }

  /** After a restart: listed records with rows, none of them active, and no coroutine. */
  predicate Restored(c: Cell) {
    c == Cell(c.info, true, {}, c.row, false, false, false, None, false, map[], false, false) && !Active(c.info.status)
  }

  predicate Initial(w: World) { forall id :: id in w ==> Restored(w[id]) }

  /** The coroutines allow these steps, in this order. */
  predicate Legal(w: World, events: seq<Event>)
    decreases |events|
  {
    |events| > 0 ==> Ready(w, events[0]) && Legal(Step(w, events[0]), events[1..])
  }

  function After(w: World, events: seq<Event>): World
    requires Legal(w, events)
    decreases |events|
  {
    if |events| == 0 then w else After(Step(w, events[0]), events[1..])
  }

  // --- statuses only move forward -----------------------------------------------------------

  predicate Advances(a: Status, b: Status) {
    match a
    case Running => true
    case Stopping => !b.Running?
    case Transferring => !b.Running? && !b.Stopping?
    case Completed => b == a
    case Failed => b == a
  }

  predicate FitsPhase(p: Phase, s: Status) {
    match p
    case Created => s.Running? || s.Stopping?
    case Waiting => s.Running? || s.Stopping?
    case Collecting => s.Transferring?
    case Closing => !Active(s)
  }

  /** A delete awaits the monitor. */
  predicate Watched(c: Cell) { exists t :: t in c.deletions && c.deletions[t].waits }

  /**
   * Each coroutine of a capture stands where its record's status says; and a capture that counts
   * against the limit has a coroutine that will end it.
   */
  predicate Fits(c: Cell) {
    && (c.launching ==> c.monitor.None? && FitsPhase(Created, c.info.status))
    && (c.monitor.Some? ==> FitsPhase(c.monitor.value, c.info.status))
    && (Busy(c) ==> c.launching || c.monitor.Some? || c.deletions != map[])
    && (c.cancelled ==> c.monitor.Some? && Watched(c))
  }

  predicate AllFit(w: World) { forall id :: id in w ==> Fits(w[id]) }

  predicate AllAdvance(w: World, later: World) {
    forall id :: id in w ==> id in later && Advances(w[id].info.status, later[id].info.status)
  }

  /** Every way a monitor ends: what it leaves, whoever owns the session. */
  lemma EndedLeaves(c: Cell, s: Status)
    requires !Active(s)
    ensures var later := Ended(c, s);
            && later.info == c.info.(status := s) && later.listed == c.listed
            && later.launching == c.launching && later.cancelled == c.cancelled
            && later.deletions == c.deletions && !later.process && !Busy(later)
            && later.monitor == (if c.process then Some(Closing) else None)
            && later.session == (c.session && !c.process)
            && (if c.process then later.task == c.task && later.row == c.row else !later.task && later.row.Some?)
  {
  }

  lemma CancelledFits(c: Cell)
    requires c.monitor.Some? && Fits(c) && c.cancelled
    ensures Fits(Cancelled(c)) && Advances(c.info.status, Cancelled(c).info.status)
  {
    EndedLeaves(c.(cancelled := false), Failed);
    assert Watched(c) ==> c.deletions != map[];
    hide Watched, Ended;
  }

  lemma MonitoredFits(c: Cell, ok: bool)
    requires c.monitor.Some? && Fits(c)
    ensures Fits(Monitored(c, ok)) && Advances(c.info.status, Monitored(c, ok).info.status)
  {
    if c.cancelled {
      CancelledFits(c);
    } else {
      EndedLeaves(c, Failed);
      EndedLeaves(c, Completed);
    }
    hide Watched, Ended, Cancelled;
  }

  lemma StepInFits(c: Cell, e: Event)
    requires ReadyIn(c, e) && Fits(c)
    ensures Fits(StepIn(c, e)) && Advances(c.info.status, StepIn(c, e).info.status)
  {
    hide Monitored;
    var later := StepIn(c, e);
    match e
    case Monitor(_, ok) => MonitoredFits(c, ok);
    case DeleteBegins(_, token) =>
      assert token in later.deletions;
      if Watched(c) {
        var t :| t in c.deletions && c.deletions[t].waits;
        assert t in later.deletions && later.deletions[t].waits;
      }
    case DeleteCloses(_, token) =>
      assert token in later.deletions;
      if Watched(c) {
        var t :| t in c.deletions && c.deletions[t].waits;
        assert t in later.deletions && later.deletions[t].waits;
      }
    case DeleteEnds(_, token) =>
      if c.cancelled {
        var t :| t in c.deletions && c.deletions[t].waits;
        assert t in later.deletions && later.deletions[t].waits;
      }
    case _ =>
  }

  lemma StepFits(w: World, e: Event)
    requires AllFit(w) && Ready(w, e)
    ensures AllFit(Step(w, e)) && AllAdvance(w, Step(w, e))
  {
    hide StepIn, ReadyIn, Refused;
    if !e.Start? && !e.Upload? {
      StepInFits(w[e.id], e);
    }
  }

  lemma {:induction false} StatusesOnlyAdvance(w: World, events: seq<Event>)
    requires AllFit(w) && Legal(w, events)
    ensures AllFit(After(w, events)) && AllAdvance(w, After(w, events))
    decreases |events|
  {
    hide Step, Ready, Fits;
    if |events| > 0 {
      StepFits(w, events[0]);
      StatusesOnlyAdvance(Step(w, events[0]), events[1..]);
    }
  }

  // --- no link is captured twice ------------------------------------------------------------

  /** While a capture counts, the interface set on file is the one it really reads. */
  predicate Named(c: Cell) { Busy(c) ==> c.names == c.info.names }

  predicate Apart(c: Cell, d: Cell) {
    Busy(c) && Busy(d) && c.info.server == d.info.server ==> !Clash(Truly(c.info), Truly(d.info))
  }

  predicate Exclusive(w: World) {
    && (forall id :: id in w ==> Named(w[id]))
    && forall a, b :: a in w && b in w && a != b ==> Apart(w[a], w[b])
  }

  /** The same capture, counting no more than it did. */
  predicate Lesser(c: Cell, later: Cell) {
    later.info == c.info.(status := later.info.status) && (Busy(later) ==> Busy(c))
  }

  lemma MonitoredIsLesser(c: Cell, ok: bool)
    requires c.monitor.Some? && Fits(c)
    ensures Lesser(c, Monitored(c, ok)) && (Named(c) ==> Named(Monitored(c, ok)))
  {
    EndedLeaves(c, Failed);
    EndedLeaves(c, Completed);
    EndedLeaves(c.(cancelled := false), Failed);
    hide Watched, Ended, Covered, Overlap;
  }

  lemma StepInIsLesser(c: Cell, e: Event)
    requires ReadyIn(c, e) && Fits(c)
    ensures Lesser(c, StepIn(c, e)) && (Named(c) ==> Named(StepIn(c, e)))
  {
    if e.Monitor? {
      MonitoredIsLesser(c, e.ok);
    }
    hide Watched, Monitored, Fits;
  }

  lemma ClashIsSymmetric(a: Links, b: Links)
    ensures Clash(a, b) == Clash(b, a)
  {
    if a.Only? && b.Only? {
      assert a.names * b.names == b.names * a.names;
    }
  }

  lemma LesserStaysExclusive(w: World, id: Id, later: Cell)
    requires Exclusive(w) && id in w && Lesser(w[id], later) && Named(later)
    ensures Exclusive(w[id := later])
  {
    var w' := w[id := later];
    forall a, b | a in w' && b in w' && a != b ensures Apart(w'[a], w'[b]) {
      assert Apart(w[a], w[b]);
    }
  }

  lemma AdmittedStaysExclusive(w: World, id: Id, new': Cell)
    requires Exclusive(w) && id !in w && Named(new')
    requires Busy(new') ==>
               forall k :: k in w ==> !HeldOn(w[k], new'.info.server, Truly(new'.info))
    ensures Exclusive(w[id := new'])
  {
    var w' := w[id := new'];
    forall a, b | a in w' && b in w' && a != b ensures Apart(w'[a], w'[b]) {
      var k := if a == id then b else a;
      if k != id && id in {a, b} {
        ClashIsSymmetric(Truly(w'[a].info), Truly(w'[b].info));
        assert Named(w[k]);
        assert Busy(new') ==> !HeldOn(w[k], new'.info.server, Truly(new'.info));
      } else {
        assert Apart(w[a], w[b]);
      }
    }
  }

  lemma StepStaysExclusive(w: World, e: Event)
    requires AllFit(w) && Exclusive(w) && Ready(w, e)
    ensures Exclusive(Step(w, e))
  {
    hide StepIn, ReadyIn, Exclusive, Lesser, Apart, Fits, Clash;
    match e
    case Start(id, server, iface, names, maximum) =>
      if !Refused(w, server, Covered(iface, names), maximum) {
        AdmittedStaysExclusive(w, id, NewCell(Info(server, iface, names, Running)));
      }
    case Upload(id) => AdmittedStaysExclusive(w, id, NewCell(Info("", "", {}, Completed)));
    case _ =>
      assert Named(w[e.id]) by { NamedIn(w, e.id); }
      StepInIsLesser(w[e.id], e);
      LesserStaysExclusive(w, e.id, StepIn(w[e.id], e));
  }

  lemma NamedIn(w: World, id: Id)
    requires Exclusive(w) && id in w
    ensures Named(w[id])
  {
  }

  // --- never more than the limit ------------------------------------------------------------

  /** No start of the run was given a larger limit. */
  predicate LimitedTo(events: seq<Event>, cap: int) {
    forall i :: 0 <= i < |events| && events[i].Start? ==> events[i].maximum <= cap
  }

  lemma {:induction false} SubsetIsNoLarger<T>(a: set<T>, b: set<T>)
    requires a <= b
    ensures |a| <= |b|
  {
    if a != {} {
      var x :| x in a;
      SubsetIsNoLarger(a - {x}, b - {x});
    }
  }

  lemma StepStaysLimited(w: World, e: Event, cap: int)
    requires AllFit(w) && Ready(w, e) && |ActiveIds(w)| <= cap && (e.Start? ==> e.maximum <= cap)
    ensures |ActiveIds(Step(w, e))| <= cap
  {
    hide StepIn, ReadyIn, Fits;
    var later := Step(w, e);
    if e.Start? {
      assert ActiveIds(later) <= ActiveIds(w) + {e.id};
      if later == w {
      } else {
        SubsetIsNoLarger(ActiveIds(later), ActiveIds(w) + {e.id});
      }
    } else {
      if !e.Upload? {
        StepInIsLesser(w[e.id], e);
      }
      assert ActiveIds(later) <= ActiveIds(w);
      SubsetIsNoLarger(ActiveIds(later), ActiveIds(w));
    }
  }

  /**
   * Over every run: no two captures that count share a link of one server, and there are never
   * more of them than the largest limit in force.
   */
  lemma {:induction false} EveryRunIsExclusive(w: World, events: seq<Event>, cap: int)
    requires AllFit(w) && Exclusive(w) && |ActiveIds(w)| <= cap
    requires Legal(w, events) && LimitedTo(events, cap)
    ensures Exclusive(After(w, events)) && |ActiveIds(After(w, events))| <= cap
    decreases |events|
  {
    hide Step, Ready, Fits, Exclusive, ActiveIds;
    if |events| > 0 {
      StepFits(w, events[0]);
      StepStaysExclusive(w, events[0]);
      StepStaysLimited(w, events[0], cap);
      EveryRunIsExclusive(Step(w, events[0]), events[1..], cap);
    }
  }

  lemma RestartsAreSafe(w: World)
    requires Initial(w)
    ensures AllFit(w) && Exclusive(w) && ActiveIds(w) == {} && AllAnswered(w)
  {
  }

  // --- who answers for a session --------------------------------------------------------------

  predicate HeldByDelete(c: Cell) { exists t :: t in c.deletions && c.deletions[t].holds }

  /**
   * Every open session is its monitor's, listed and counting, or a delete's; and nothing of a
   * deleted capture is left behind.
   */
  predicate Answered(c: Cell) {
    && (c.launching || c.task || c.process ==> c.listed && c.deletions == map[])
    && (c.process ==> Busy(c) && !c.cancelled)
    && (c.task || c.process ==> c.monitor.Some?)
    && (c.session ==> c.process || HeldByDelete(c))
    && (c.monitor.Some? ==> c.task || Watched(c))
    && (c.row.Some? ==> c.listed || c.deletions != map[])
  }

  lemma MonitoredIsAnswered(c: Cell, ok: bool)
    requires c.monitor.Some? && Fits(c) && Answered(c)
    ensures Answered(Monitored(c, ok))
  {
    EndedLeaves(c, Failed);
    EndedLeaves(c, Completed);
    EndedLeaves(c.(cancelled := false), Failed);
    assert Watched(c) ==> c.deletions != map[];
    hide Watched, HeldByDelete, Ended;
  }

  lemma DeletionIsAnswered(c: Cell, e: Event)
    requires ReadyIn(c, e) && Fits(c) && Answered(c)
    requires (e.DeleteBegins? && !c.launching) || e.DeleteCloses? || e.DeleteEnds?
    ensures Answered(StepIn(c, e))
  {
    var later, token := StepIn(c, e), e.token;
    if Watched(c) {
      var t :| t in c.deletions && c.deletions[t].waits;
      if e.DeleteEnds? && t == token {
        assert later.monitor.None?;
      } else {
        assert t in later.deletions && later.deletions[t].waits;
      }
    }
    if HeldByDelete(c) && !e.DeleteCloses? {
      var t :| t in c.deletions && c.deletions[t].holds;
      assert t in later.deletions && later.deletions[t].holds;
    }
    if !e.DeleteEnds? {
      assert token in later.deletions;
    }
    assert e.DeleteBegins? && c.task ==> Watched(later);
    assert e.DeleteBegins? && c.process ==> HeldByDelete(later);
  }

  lemma StepInIsAnswered(c: Cell, e: Event)
    requires ReadyIn(c, e) && Fits(c) && Answered(c) && !(e.DeleteBegins? && c.launching)
    ensures Answered(StepIn(c, e))
  {
    if e.Monitor? {
      MonitoredIsAnswered(c, e.ok);
    } else if e.DeleteBegins? || e.DeleteCloses? || e.DeleteEnds? {
      DeletionIsAnswered(c, e);
    } else {
      hide Watched, HeldByDelete;
    }
  }

  predicate AllAnswered(w: World) { forall id :: id in w ==> Answered(w[id]) }

  /** No delete begins while its capture's launch is pending. */
  predicate Careful(w: World, e: Event) { e.DeleteBegins? && e.id in w ==> !w[e.id].launching }

  predicate CarefulRun(w: World, events: seq<Event>)
    requires Legal(w, events)
    decreases |events|
  {
    |events| > 0 ==> Careful(w, events[0]) && CarefulRun(Step(w, events[0]), events[1..])
  }

  lemma StepIsAnswered(w: World, e: Event)
    requires AllFit(w) && AllAnswered(w) && Ready(w, e) && Careful(w, e)
    ensures AllAnswered(Step(w, e))
  {
    hide StepIn, ReadyIn, Refused, Fits;
    if !e.Start? && !e.Upload? {
      StepInIsAnswered(w[e.id], e);
    }
  }

  lemma {:induction false} CarefulRunsAnswer(w: World, events: seq<Event>)
    requires AllFit(w) && AllAnswered(w) && Legal(w, events) && CarefulRun(w, events)
    ensures AllAnswered(After(w, events))
    decreases |events|
  {
    hide Step, Ready, Fits, Answered, Careful;
    if |events| > 0 {
      StepFits(w, events[0]);
      StepIsAnswered(w, events[0]);
      CarefulRunsAnswer(Step(w, events[0]), events[1..]);
    }
  }

  /** So two open sessions on one link are a delete's and its successor's, never two captures'. */
  lemma SessionsDoNotOverlap(w: World, a: Id, b: Id)
    requires AllAnswered(w) && Exclusive(w) && a in w && b in w && a != b
    requires w[a].session && w[b].session && w[a].info.server == w[b].info.server
    requires Clash(Truly(w[a].info), Truly(w[b].info))
    ensures HeldByDelete(w[a]) || HeldByDelete(w[b])
  {
    assert Apart(w[a], w[b]) && Answered(w[a]) && Answered(w[b]);
  }

  /** And a finished delete leaves no row, no session and no coroutine. */
  lemma DeletedIsGone(c: Cell)
    requires Answered(c) && !c.listed && c.deletions == map[]
    ensures c.row.None? && !c.session && !c.launching && c.monitor.None? && !c.process && !c.task
  {
  }

  // --- what a delete during a launch leaves behind ----------------------------------------------

  /** An open session that no monitor, no delete and no listed capture answers for. */
  predicate Leaked(c: Cell) {
    c.session && !c.listed && c.monitor.None? && !c.launching && c.deletions == map[]
  }

  /** A deleted capture that a restart brings back. */
  predicate Undead(c: Cell) { c.row.Some? && !c.listed && !c.launching && c.monitor.None? && c.deletions == map[] }

  /** The steps of one coroutine after another, all on one capture. */
  function StepsIn(c: Cell, events: seq<Event>): Option<Cell>
    decreases |events|
  {
    if |events| == 0 then Some(c)
    else if events[0].Start? || events[0].Upload? || !ReadyIn(c, events[0]) then None
    else StepsIn(StepIn(c, events[0]), events[1..])
  }

  lemma {:induction false} RunOnOne(w: World, id: Id, events: seq<Event>)
    requires id in w && (forall i :: 0 <= i < |events| ==> events[i].id == id)
    requires StepsIn(w[id], events).Some?
    ensures Legal(w, events) && id in After(w, events) && Some(After(w, events)[id]) == StepsIn(w[id], events)
    decreases |events|
  {
    hide StepIn, ReadyIn;
    if |events| > 0 {
      RunOnOne(Step(w, events[0]), id, events[1..]);
    }
  }

  lemma Onward(c: Cell, e: Event, rest: seq<Event>)
    requires !e.Start? && !e.Upload? && ReadyIn(c, e)
    ensures StepsIn(c, [e] + rest) == StepsIn(StepIn(c, e), rest)
  {
    assert ([e] + rest)[1..] == rest;
  }

  /** A delete that comes and goes during the launch. */
  lemma DeletedInFlight(c: Cell, id: Id, token: nat, rest: seq<Event>)
    requires Fits(c) && Answered(c) && c.launching
    ensures StepsIn(c, [DeleteBegins(id, token), DeleteEnds(id, token)] + rest) ==
            StepsIn(c.(row := None, names := {}, listed := false), rest)
  {
    var begins, ends := DeleteBegins(id, token), DeleteEnds(id, token);
    assert !c.task && !c.process && !c.cancelled && c.deletions == map[];
    Onward(c, begins, [ends] + rest);
    var begun := StepIn(c, begins);
    Onward(begun, ends, rest);
    assert StepIn(begun, ends) == c.(row := None, names := {}, listed := false) by {
      assert begun.deletions - {token} == map[];
    }
    assert [begins] + ([ends] + rest) == [begins, ends] + rest;
  }

  /**
   * Whenever a delete begins while the launch is pending, one way on is a session that nobody will
   * close and another is a row that comes back: nothing weaker than `CarefulRun` would do.
   */
  lemma CarelessDeleteLeaks(w: World, id: Id, token: nat)
    requires AllFit(w) && AllAnswered(w) && id in w && w[id].launching
    ensures var run := [DeleteBegins(id, token), DeleteEnds(id, token), LaunchWorks(id), Monitor(id, true)];
            Legal(w, run) && id in After(w, run) && Leaked(After(w, run)[id])
    ensures var run := [DeleteBegins(id, token), DeleteEnds(id, token), LaunchFails(id)];
            Legal(w, run) && id in After(w, run) && Undead(After(w, run)[id])
  {
    var c := w[id];
    var gone := c.(row := None, names := {}, listed := false);
    var delete := [DeleteBegins(id, token), DeleteEnds(id, token)];
    assert Fits(c) && Answered(c);
    DeletedInFlight(c, id, token, [LaunchWorks(id), Monitor(id, true)]);
    DeletedInFlight(c, id, token, [LaunchFails(id)]);
    LaunchedUnlisted(gone, id);
    hide Fits, Answered, StepIn, StepsIn, ReadyIn;
    RunOnOne(w, id, delete + [LaunchWorks(id), Monitor(id, true)]);
    RunOnOne(w, id, delete + [LaunchFails(id)]);
    assert delete + [LaunchWorks(id), Monitor(id, true)] ==
           [DeleteBegins(id, token), DeleteEnds(id, token), LaunchWorks(id), Monitor(id, true)];
    assert delete + [LaunchFails(id)] == [DeleteBegins(id, token), DeleteEnds(id, token), LaunchFails(id)];
  }

  lemma LaunchedUnlisted(gone: Cell, id: Id)
    requires Fits(gone) && gone.launching && !gone.listed && !gone.cancelled && gone.deletions == map[]
    ensures var later := StepsIn(gone, [LaunchWorks(id), Monitor(id, true)]); later.Some? && Leaked(later.value)
    ensures var later := StepsIn(gone, [LaunchFails(id)]); later.Some? && Undead(later.value)
  {
    Onward(gone, LaunchWorks(id), [Monitor(id, true)]);
    Onward(StepIn(gone, LaunchWorks(id)), Monitor(id, true), []);
    Onward(gone, LaunchFails(id), []);
    assert [LaunchWorks(id)] + [Monitor(id, true)] == [LaunchWorks(id), Monitor(id, true)];
    assert [Monitor(id, true)] + [] == [Monitor(id, true)] && [LaunchFails(id)] + [] == [LaunchFails(id)];
  }

  lemma {:induction false} OthersAreCareful(w: World, events: seq<Event>)
    requires Legal(w, events) && forall i :: 0 <= i < |events| ==> !events[i].DeleteBegins?
    ensures CarefulRun(w, events)
    decreases |events|
  {
    hide Step, Ready;
    if |events| > 0 {
      OthersAreCareful(Step(w, events[0]), events[1..]);
    }
  }

  lemma NothingLeftOver(c: Cell)
    requires Answered(c)
    ensures !Leaked(c) && !Undead(c)
  {
  }

  lemma FirstThen(w: World, e: Event, rest: seq<Event>)
    requires Legal(w, [e] + rest)
    ensures Ready(w, e) && Legal(Step(w, e), rest) && After(w, [e] + rest) == After(Step(w, e), rest)
  {
    hide Step, Ready;
    assert ([e] + rest)[1..] == rest;
  }

  /** This way on from `w` is open, careful, and ends with the capture as described. */
  ghost predicate EndsWith(w: World, rest: seq<Event>, id: Id, bad: Cell -> bool) {
    Legal(w, rest) && CarefulRun(w, rest) && id in After(w, rest) && bad(After(w, rest)[id])
  }

  /**
   * The exact condition, one step at a time: from a state where everything is answered for, a step is
   * a careful one if and only if nobody who is careful from then on can end with its capture leaked;
   * and if and only if nobody can end with its deleted row back.
   */
  lemma CarefulExactly(w: World, e: Event)
    requires AllFit(w) && AllAnswered(w) && Ready(w, e)
    ensures Careful(w, e) <==> forall rest: seq<Event> :: !EndsWith(Step(w, e), rest, e.id, Leaked)
    ensures Careful(w, e) <==> forall rest: seq<Event> :: !EndsWith(Step(w, e), rest, e.id, Undead)
  {
    hide Step, Ready, Answered, Fits, Leaked, Undead;
    if Careful(w, e) {
      StepFits(w, e);
      StepIsAnswered(w, e);
      forall rest: seq<Event> | Legal(Step(w, e), rest) && CarefulRun(Step(w, e), rest)
        ensures !EndsWith(Step(w, e), rest, e.id, Leaked) && !EndsWith(Step(w, e), rest, e.id, Undead)
      {
        CarefulRunsAnswer(Step(w, e), rest);
        if e.id in After(Step(w, e), rest) { NothingLeftOver(After(Step(w, e), rest)[e.id]); }
      }
    } else {
      CarelessDeleteLeaks(w, e.id, e.token);
      var leak := [DeleteEnds(e.id, e.token), LaunchWorks(e.id), Monitor(e.id, true)];
      var back := [DeleteEnds(e.id, e.token), LaunchFails(e.id)];
      assert [e] + leak == [DeleteBegins(e.id, e.token), DeleteEnds(e.id, e.token), LaunchWorks(e.id),
                            Monitor(e.id, true)];
      assert [e] + back == [DeleteBegins(e.id, e.token), DeleteEnds(e.id, e.token), LaunchFails(e.id)];
      FirstThen(w, e, leak);
      FirstThen(w, e, back);
      OthersAreCareful(Step(w, e), leak);
      OthersAreCareful(Step(w, e), back);
      assert EndsWith(Step(w, e), leak, e.id, Leaked) && EndsWith(Step(w, e), back, e.id, Undead);
    }
  }

  /** A leaked session holds nothing back: starts on its link are let through as if it were gone. */
  lemma ALeakBlocksNothing(w: World, id: Id, server: Server, wanted: Links, maximum: int)
    requires id in w && Leaked(w[id])
    ensures Refused(w, server, wanted, maximum) == Refused(w - {id}, server, wanted, maximum)
  {
    assert ActiveIds(w) == ActiveIds(w - {id});
    var rest := w - {id};
    assert forall k :: k in w && HeldOn(w[k], server, wanted) ==> k in rest && HeldOn(rest[k], server, wanted);
  }

  /**
   * A stop during the launch is lost: the capture runs on, uninterrupted, and stopping it again
   * does nothing.
   */
  lemma StopDuringLaunchIsLost(c: Cell, id: Id)
    requires Fits(c) && Answered(c) && c.launching && c.info.status.Running?
    ensures var run := [Stop(id), LaunchWorks(id), Monitor(id, true)];
            && StepsIn(c, run).Some?
            && var later := StepsIn(c, run).value;
               && later.session && later.monitor == Some(Waiting) && later.info.status.Stopping?
               && !later.interrupted && StepIn(later, Stop(id)) == later
  {
    var stopped := StepIn(c, Stop(id));
    var launched := StepIn(stopped, LaunchWorks(id));
    Onward(c, Stop(id), [LaunchWorks(id), Monitor(id, true)]);
    Onward(stopped, LaunchWorks(id), [Monitor(id, true)]);
    Onward(launched, Monitor(id, true), []);
    assert [Stop(id)] + [LaunchWorks(id), Monitor(id, true)] == [Stop(id), LaunchWorks(id), Monitor(id, true)];
    assert [LaunchWorks(id)] + [Monitor(id, true)] == [LaunchWorks(id), Monitor(id, true)];
    assert [Monitor(id, true)] + [] == [Monitor(id, true)];
  }
}
