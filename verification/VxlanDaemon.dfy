/** The vxlan daemon: forwarding tables that follow the etcd records through a queue of watch events. */
module VxlanDaemon {
  import opened Words
  import Text

  /** The record of a tunnel end: `<root>/vxlan/<interface>/<tunnel source>`. */
  datatype Rec = Rec(name: string, src: string)

  /** RecVxlan's key */
  function KeyOf(root: string, r: Rec): string {
    root + "/" + r.name + "/" + r.src
  }

  /** Go's `filepath.Dir` for a path that has a separator. */
  function Dir(path: string): string {
    var base := Text.Base(path);
    if |base| < |path| then path[..|path| - |base| - 1] else "."
  }

  /** ParseVxlan */
  function ParseKey(key: string): Rec {
    Rec(Text.Base(Dir(key)), Text.Base(key))
  }

  lemma ParseKeyOfKey(root: string, r: Rec)
    requires '/' !in r.name && '/' !in r.src
    ensures ParseKey(KeyOf(root, r)) == r
  {
    Text.BaseOfJoin(root + "/" + r.name, r.src);
    Text.BaseOfJoin(root, r.name);
    assert Dir(KeyOf(root, r)) == root + "/" + r.name;
  }

  datatype Event = Put(rec: Rec) | Delete(rec: Rec)

  /** What etcd holds after a history of events. */
  ghost function Records(log: seq<Event>): set<Rec> {
    if log == [] then {}
    else
      var rest := Records(log[..|log| - 1]);
      match log[|log| - 1]
      case Put(r) => rest + {r}
      case Delete(r) => rest - {r}
  }

  ghost function SourcesIn(records: set<Rec>, name: string): set<string> {
    set r | r in records && r.name == name :: r.src
  }

  ghost function NamesIn(records: set<Rec>, vx: string): set<string> {
    set r | r in records && (vx == "" || r.name == vx) :: r.name
  }

  /** A network interface; a vxlan has its own tunnel source and a forwarding table. */
  datatype Link = Vxlan(self: string, fdb: set<string>) | Other {
    ghost function With(sources: set<string>): Link {
      match this
      case Vxlan(self, fdb) => Vxlan(self, fdb + (sources - {self}))
      case Other => Other
    }
  }

  /** The daemon's buffer of interfaces it missed, and the interfaces of the node. */
  datatype View = View(buf: set<string>, links: map<string, Link>)

  /* ---------- what the handlers do ---------- */

  ghost function AfterAdd(records: set<Rec>, v: View, name: string, src: string): View {
    if name !in v.links then v.(buf := v.buf + {name})
    else if name in v.buf then
      View(v.buf - {name}, v.links[name := v.links[name].With(SourcesIn(records, name))])
    else v.(links := v.links[name := v.links[name].With({src})])
  }

  ghost function AfterDelete(v: View, name: string, src: string): View {
    if name in v.links && v.links[name].Vxlan? && v.links[name].self != src then
      v.(links := v.links[name := Vxlan(v.links[name].self, v.links[name].fdb - {src})])
    else v
  }

  ghost function AfterEvent(records: set<Rec>, v: View, e: Event): View {
    match e
    case Put(r) => AfterAdd(records, v, r.name, r.src)
    case Delete(r) => AfterDelete(v, r.name, r.src)
  }

  /** Every interface with a record is either buffered or brought up to date. */
  ghost function AfterHistory(records: set<Rec>, v: View, vx: string): View {
    var names := NamesIn(records, vx);
    View(v.buf - names * v.links.Keys + (names - v.links.Keys),
         map n | n in v.links :: if n in names then v.links[n].With(SourcesIn(records, n)) else v.links[n])
  }

  /** The replay after the records `done`. */
  ghost function PartHistory(records: set<Rec>, done: set<Rec>, v: View): View {
    var names := NamesIn(done, "");
    View(v.buf - names * v.links.Keys + (names - v.links.Keys),
         map n | n in v.links ::
           v.links[n].With(if n in names && n in v.buf then SourcesIn(records, n) else SourcesIn(done, n)))
  }

  lemma WithNothing(l: Link)
    ensures l.With({}) == l
  {
    assert l.Vxlan? ==> l.fdb + ({} - {l.self}) == l.fdb;
  }

  lemma WithSelf(l: Link)
    ensures l.Vxlan? ==> l.With({l.self}) == l
  {
    assert l.Vxlan? ==> l.fdb + ({l.self} - {l.self}) == l.fdb;
  }

  lemma WithMore(l: Link, a: set<string>, b: set<string>)
    ensures l.With(a).With(b) == l.With(a + b)
    ensures b <= a ==> l.With(a).With(b) == l.With(a)
  {
    if l.Vxlan? {
      assert l.fdb + (a - {l.self}) + (b - {l.self}) == l.fdb + (a + b - {l.self});
      assert b <= a ==> a + b == a;
    }
  }

  lemma SameView(v: View, w: View)
    requires v.buf == w.buf && v.links.Keys == w.links.Keys
    requires forall n :: n in v.links ==> v.links[n] == w.links[n]
    ensures v == w
  {
  }

  lemma NextNames(done: set<Rec>, r: Rec, n: string)
    ensures NamesIn(done + {r}, "") == NamesIn(done, "") + {r.name}
    ensures SourcesIn(done + {r}, n) == if n == r.name then SourcesIn(done, n) + {r.src} else SourcesIn(done, n)
    ensures n !in NamesIn(done, "") ==> SourcesIn(done, n) == {}
  {
  }

  lemma PartHistoryBuffer(records: set<Rec>, done: set<Rec>, v: View, r: Rec)
    ensures AfterAdd(records, PartHistory(records, done, v), r.name, r.src).buf
         == PartHistory(records, done + {r}, v).buf
  {
    hide SourcesIn, NamesIn, Link.With;
    NextNames(done, r, r.name);
  }

  lemma PartHistoryLink(records: set<Rec>, done: set<Rec>, v: View, r: Rec, n: string)
    requires done <= records && r in records && n in v.links
    ensures AfterAdd(records, PartHistory(records, done, v), r.name, r.src).links[n]
         == PartHistory(records, done + {r}, v).links[n]
  {
    assert r.src in SourcesIn(records, r.name);
    hide SourcesIn, NamesIn, Link.With;
    NextNames(done, r, n);
    WithNothing(v.links[n]);
    if n == r.name {
      var sofar := if n in NamesIn(done, "") && n in v.buf then SourcesIn(records, n) else SourcesIn(done, n);
      assert PartHistory(records, done, v).links[n] == v.links[n].With(sofar);
      WithMore(v.links[n], sofar, {r.src});
    }
  }

  lemma PartHistoryNext(records: set<Rec>, done: set<Rec>, v: View, r: Rec)
    requires done <= records && r in records
    ensures AfterAdd(records, PartHistory(records, done, v), r.name, r.src) == PartHistory(records, done + {r}, v)
  {
    var now := AfterAdd(records, PartHistory(records, done, v), r.name, r.src);
    var anew := PartHistory(records, done + {r}, v);
    PartHistoryBuffer(records, done, v, r);
    forall n | n in v.links ensures now.links[n] == anew.links[n] {
      PartHistoryLink(records, done, v, r, n);
    }
    SameView(now, anew);
  }

  lemma PartHistoryShape(records: set<Rec>, done: set<Rec>, v: View)
    ensures var w := PartHistory(records, done, v);
            w.links.Keys == v.links.Keys && |w.buf * w.links.Keys| <= |v.buf * v.links.Keys|
  {
    var w := PartHistory(records, done, v);
    SetSizes(w.buf * w.links.Keys, v.buf * v.links.Keys);
  }

  lemma PartHistoryStarts(records: set<Rec>, v: View)
    ensures PartHistory(records, {}, v) == v
  {
    assert NamesIn({}, "") == {};
    forall n | n in v.links ensures PartHistory(records, {}, v).links[n] == v.links[n] {
      assert SourcesIn({}, n) == {};
      WithNothing(v.links[n]);
    }
    SameView(PartHistory(records, {}, v), v);
  }

  ghost function Selected(records: set<Rec>, vx: string): set<Rec> {
    set r | r in records && (vx == "" || r.name == vx)
  }

  lemma PartHistoryEnds(records: set<Rec>, v: View, vx: string)
    ensures PartHistory(records, Selected(records, vx), v) == AfterHistory(records, v, vx)
  {
    var all := Selected(records, vx);
    assert NamesIn(all, "") == NamesIn(records, vx);
    forall n | n in v.links
      ensures PartHistory(records, all, v).links[n] == AfterHistory(records, v, vx).links[n]
    {
      if n in NamesIn(records, vx) {
        assert SourcesIn(all, n) == SourcesIn(records, n);
      } else {
        assert SourcesIn(all, n) == {};
        WithNothing(v.links[n]);
      }
    }
    SameView(PartHistory(records, all, v), AfterHistory(records, v, vx));
  }

  class Multusd {
    var buf: set<string>
    var links: map<string, Link>

    constructor (links: map<string, Link>)
      ensures buf == {} && this.links == links
    {
      buf := {};
      this.links := links;
    }

    ghost function Current(): View
      reads this
    {
      View(buf, links)
    }

    /** procHistoryRecord; `records` is what etcd holds when it is read. */
    method ProcHistoryRecord(records: set<Rec>, vx: string)
      requires "" !in links
      modifies this
      ensures Current() == AfterHistory(records, old(Current()), vx)
      decreases |buf * links.Keys|, 1
    {
      hide PartHistory, AfterHistory, AfterAdd;
      var todo := records;
      ghost var done: set<Rec> := {};
      ghost var all := Selected(records, vx);
      PartHistoryStarts(records, Current());
      PartHistoryEnds(records, Current(), vx);
      while todo != {}
        invariant todo <= records && done <= all
        invariant done == all - todo
        invariant Current() == PartHistory(records, done, old(Current()))
        decreases |todo|
      {
        var r :| r in todo;
        todo := todo - {r};
        if |vx| == 0 || vx == r.name {
          PartHistoryNext(records, done, old(Current()), r);
          PartHistoryShape(records, done, old(Current()));
          WatchedAddSubnet(records, r.name, r.src);
          done := done + {r};
        }
      }
      assert done == all;
    }

    /** watchedAddSubnet */
    method WatchedAddSubnet(records: set<Rec>, name: string, src: string)
      requires "" !in links
      modifies this
      ensures Current() == AfterAdd(records, old(Current()), name, src)
      decreases |buf * links.Keys|, 0
    {
      if name !in links {
        buf := buf + {name};
        return;
      }
      if name in buf {
        assert name in buf * links.Keys && name !in (buf - {name}) * links.Keys;
        SetSizes((buf - {name}) * links.Keys, buf * links.Keys);
        buf := buf - {name};
        ReplayOne(records, Current(), name);
        ProcHistoryRecord(records, name);
        return;
      }
      var l := links[name];
      WithSelf(l);
      assert links[name := l] == links;
      if l.Other? {
        return;
      }
      if l.self == src {
        return;
      }
      assert {src} - {l.self} == {src};
      links := links[name := Vxlan(l.self, l.fdb + {src})];
    }

    /** watchedDelSubnet */
    method WatchedDelSubnet(name: string, src: string)
      modifies this
      ensures Current() == AfterDelete(old(Current()), name, src)
    {
      if name !in links {
        return;
      }
      var l := links[name];
      if l.Other? {
        return;
      }
      if l.self == src {
        return;
      }
      links := links[name := Vxlan(l.self, l.fdb - {src})];
    }

    /** One event of the watch. */
    method Watched(records: set<Rec>, e: Event)
      requires "" !in links
      modifies this
      ensures Current() == AfterEvent(records, old(Current()), e)
    {
      match e
      case Delete(r) => WatchedDelSubnet(r.name, r.src);
      case Put(r) => WatchedAddSubnet(records, r.name, r.src);
    }
  }

  lemma {:induction false} SetSizes<T>(a: set<T>, b: set<T>)
    requires a <= b
    ensures |a| <= |b| && (a != b ==> |a| < |b|)
    decreases a
  {
    if x :| x in a {
      SetSizes(a - {x}, b - {x});
    }
  }

  lemma ReplayOne(records: set<Rec>, v: View, name: string)
    requires name != "" && name in v.links && name !in v.buf
    ensures AfterHistory(records, v, name) == v.(links := v.links[name := v.links[name].With(SourcesIn(records, name))])
  {
    var anew := AfterHistory(records, v, name);
    assert NamesIn(records, name) <= {name};
    if name !in NamesIn(records, name) {
      assert SourcesIn(records, name) == {};
      WithNothing(v.links[name]);
    }
    SameView(anew, v.(links := v.links[name := v.links[name].With(SourcesIn(records, name))]));
  }

  /* ---------- events and records ---------- */

  /** The last word of some events on a record, if they mention it. */
  ghost function Verdict(events: seq<Event>, r: Rec): Option<bool> {
    if events == [] then None
    else if events[|events| - 1].rec == r then Some(events[|events| - 1].Put?)
    else Verdict(events[..|events| - 1], r)
  }

  /** Whether a record that is held or not is held after some events. */
  ghost predicate Fate(events: seq<Event>, r: Rec, held: bool) {
    Verdict(events, r).GetOr(held)
  }

  lemma {:induction false} VerdictOfConcat(a: seq<Event>, b: seq<Event>, r: Rec)
    ensures Verdict(a + b, r) == if Verdict(b, r).Some? then Verdict(b, r) else Verdict(a, r)
  {
    if b == [] {
      assert a + b == a;
    } else {
      VerdictOfConcat(a, b[..|b| - 1], r);
      assert (a + b)[..|a + b| - 1] == a + b[..|b| - 1];
    }
  }

  lemma {:induction false} RecordsAreVerdicts(log: seq<Event>, r: Rec)
    ensures r in Records(log) <==> Verdict(log, r) == Some(true)
  {
    if log != [] {
      RecordsAreVerdicts(log[..|log| - 1], r);
    }
  }

  /** A suffix of the history has the last word on what it mentions. */
  lemma SuffixDecides(log: seq<Event>, n: nat, r: Rec)
    requires n <= |log|
    ensures Verdict(log[n..], r).Some? ==> (r in Records(log) <==> Verdict(log[n..], r).value)
  {
    assert log[..n] + log[n..] == log;
    VerdictOfConcat(log[..n], log[n..], r);
    RecordsAreVerdicts(log, r);
  }

  lemma NextEvent(log: seq<Event>, n: nat, r: Rec)
    requires n < |log|
    ensures Verdict(log[n..], r) == if Verdict(log[n + 1..], r).Some? then Verdict(log[n + 1..], r)
                                    else if log[n].rec == r then Some(log[n].Put?) else None
  {
    assert log[n..] == [log[n]] + log[n + 1..];
    VerdictOfConcat([log[n]], log[n + 1..], r);
  }

  lemma MoreEvents(log: seq<Event>, n: nat, e: Event, r: Rec)
    requires n <= |log|
    ensures Verdict((log + [e])[n..], r) == if e.rec == r then Some(e.Put?) else Verdict(log[n..], r)
    ensures r in Records(log + [e]) <==> if e.rec == r then e.Put? else r in Records(log)
  {
    assert (log + [e])[n..] == log[n..] + [e];
    assert (log[n..] + [e])[..|log| - n] == log[n..];
    assert (log + [e])[..|log|] == log;
  }

  /** The forwarding table after some events, one by one. */
  ghost function Play(events: seq<Event>, name: string, self: string, fdb: set<string>): set<string> {
    if events == [] then fdb
    else
      var rest := if events[0].rec.name != name || events[0].rec.src == self then fdb
                  else if events[0].Put? then fdb + {events[0].rec.src} else fdb - {events[0].rec.src};
      Play(events[1..], name, self, rest)
  }

  lemma {:induction false} PlayIsFate(events: seq<Event>, name: string, self: string, fdb: set<string>, src: string)
    ensures src in Play(events, name, self, fdb) <==>
            if src == self then src in fdb else Fate(events, Rec(name, src), src in fdb)
  {
    if events != [] {
      var e := events[0];
      var rest := if e.rec.name != name || e.rec.src == self then fdb
                  else if e.Put? then fdb + {e.rec.src} else fdb - {e.rec.src};
      PlayIsFate(events[1..], name, self, rest, src);
      NextEvent(events, 0, Rec(name, src));
      assert events[0..] == events;
    }
  }

  /* ---------- every run ---------- */

  /** The etcd history so far, how much of it the watch has delivered, and the daemon's view. */
  datatype State = State(log: seq<Event>, consumed: nat, view: View) {
    ghost function Pending(): seq<Event>
      requires consumed <= |log|
    {
      log[consumed..]
    }
  }

  datatype Action = Write(e: Event) | Consume | Appear(name: string, link: Link) | Vanish(name: string)

  ghost predicate Next(s: State, a: Action, t: State) {
    match a
    case Write(e) => t == s.(log := s.log + [e])
    case Consume =>
      && s.consumed < |s.log|
      && t == s.(consumed := s.consumed + 1, view := AfterEvent(Records(s.log), s.view, s.log[s.consumed]))
    case Appear(name, link) =>
      && name != "" && name !in s.view.links && (link.Vxlan? ==> link.fdb == {})
      && t == s.(view := s.view.(links := s.view.links[name := link]))
    case Vanish(name) =>
      t == s.(view := s.view.(links := s.view.links - {name}))
  }

  /** A start: the history is read after the first `h` events, and the watch begins at some other point. */
  ghost predicate IsStart(s: State, h: nat, links: map<string, Link>) {
    h <= |s.log| && s.consumed <= |s.log| && s.view == AfterHistory(Records(s.log[..h]), View({}, links), "")
  }

  ghost predicate IsRun(states: seq<State>, actions: seq<Action>, h: nat, links: map<string, Link>) {
    && |states| == |actions| + 1 && IsStart(states[0], h, links)
    && forall i :: 0 <= i < |actions| ==> Next(states[i], actions[i], states[i + 1])
  }

  /** The pending events turn a table into the records. */
  ghost predicate LeadsToRecords(s: State, name: string, l: Link)
    requires s.consumed <= |s.log|
  {
    l.Vxlan? ==>
      && l.self !in l.fdb
      && forall src :: src != l.self ==>
           (Rec(name, src) in Records(s.log) <==> Fate(s.Pending(), Rec(name, src), src in l.fdb))
  }

  /** The daemon can still bring the interface up to date. */
  ghost predicate Tracks(s: State, name: string) {
    && s.consumed <= |s.log|
    && if name in s.view.buf then
         name in s.view.links && s.view.links[name].Vxlan? ==> s.view.links[name].fdb == {}
       else if name in s.view.links then
         LeadsToRecords(s, name, s.view.links[name])
       else
         !Misses(s, name)
  }

  /** A record of the interface has been delivered for good: no pending event will bring it again. */
  ghost predicate Misses(s: State, name: string)
    requires s.consumed <= |s.log|
  {
    exists src :: Rec(name, src) in Records(s.log) && Verdict(s.Pending(), Rec(name, src)).None?
  }

  /** The removal of an interface that was up to date makes the daemon forget its records. */
  ghost predicate Forgets(s: State, a: Action, name: string) {
    s.consumed <= |s.log| && a == Vanish(name) && name !in s.view.buf && Misses(s, name)
  }

  lemma WriteKeepsTracks(s: State, e: Event, t: State, name: string)
    requires Tracks(s, name) && Next(s, Write(e), t)
    ensures Tracks(t, name)
  {
    forall r ensures Verdict(t.Pending(), r) == if e.rec == r then Some(e.Put?) else Verdict(s.Pending(), r)
             ensures r in Records(t.log) <==> if e.rec == r then e.Put? else r in Records(s.log) {
      MoreEvents(s.log, s.consumed, e, r);
    }
  }

  lemma SourcesAt(records: set<Rec>, name: string, src: string)
    ensures src in SourcesIn(records, name) <==> Rec(name, src) in records
  {
  }

  lemma ConsumeKeepsTracks(s: State, t: State, name: string)
    requires Tracks(s, name) && Next(s, Consume, t)
    ensures Tracks(t, name)
  {
    hide Verdict, Records;
    var e := s.log[s.consumed];
    forall r ensures Verdict(s.Pending(), r) == if Verdict(t.Pending(), r).Some? then Verdict(t.Pending(), r)
                                                else if e.rec == r then Some(e.Put?) else None
             ensures Verdict(s.Pending(), r).Some? ==> (r in Records(s.log) <==> Verdict(s.Pending(), r).value)
    {
      NextEvent(s.log, s.consumed, r);
      SuffixDecides(s.log, s.consumed, r);
    }
    forall src ensures src in SourcesIn(Records(s.log), name) <==> Rec(name, src) in Records(s.log) {
      SourcesAt(Records(s.log), name, src);
    }
  }

  lemma StepKeepsTracks(s: State, a: Action, t: State, name: string)
    requires Tracks(s, name) && Next(s, a, t) && !Forgets(s, a, name)
    ensures Tracks(t, name)
  {
    match a
    case Write(e) => WriteKeepsTracks(s, e, t, name);
    case Consume => ConsumeKeepsTracks(s, t, name);
    case _ =>
      hide Verdict, Records;
      forall r ensures Verdict(s.Pending(), r).Some? ==> (r in Records(s.log) <==> Verdict(s.Pending(), r).value) {
        SuffixDecides(s.log, s.consumed, r);
      }
  }

  ghost predicate IsVxlan(s: State, name: string) {
    name in s.view.links && s.view.links[name].Vxlan?
  }

  /** The records of the other nodes. */
  ghost function Others(log: seq<Event>, name: string, self: string): set<string> {
    SourcesIn(Records(log), name) - {self}
  }

  /** Tracking an unbuffered vxlan means what it should: playing the pending events gives the records of the others. */
  lemma TracksExactly(s: State, name: string)
    requires s.consumed <= |s.log| && IsVxlan(s, name) && name !in s.view.buf
    ensures var l := s.view.links[name];
            Tracks(s, name) <==> Play(s.Pending(), name, l.self, l.fdb) == Others(s.log, name, l.self)
  {
    hide Verdict, Records, SourcesIn, Play;
    var l := s.view.links[name];
    forall src ensures src in Play(s.Pending(), name, l.self, l.fdb) <==>
                       if src == l.self then src in l.fdb else Fate(s.Pending(), Rec(name, src), src in l.fdb)
               ensures src in SourcesIn(Records(s.log), name) <==> Rec(name, src) in Records(s.log) {
      PlayIsFate(s.Pending(), name, l.self, l.fdb, src);
      SourcesAt(Records(s.log), name, src);
    }
  }

  /** The events between the history read and the watch, which the daemon never sees. */
  ghost function Gap(s: State, h: nat): seq<Event>
    requires s.consumed <= |s.log|
  {
    if h <= s.consumed then s.log[h..s.consumed] else []
  }

  ghost predicate InTable(links: map<string, Link>, name: string, src: string) {
    name in links && links[name].Vxlan? && src in links[name].fdb
  }

  /** No pending event mentions the record, and what the gap makes of it differs from what the table gets:
      the history and the entries from before. */
  ghost predicate Missed(s: State, h: nat, links: map<string, Link>, r: Rec)
    requires h <= |s.log| && s.consumed <= |s.log|
  {
    && Verdict(s.Pending(), r).None?
    && Fate(Gap(s, h), r, r in Records(s.log[..h])) != (r in Records(s.log[..h]) || InTable(links, r.name, r.src))
  }

  /** The start loses nothing of the interface: no source of an existing vxlan is missed; a missing interface is
      buffered by the history or gets no record in the gap. */
  ghost predicate StartsWell(s: State, h: nat, links: map<string, Link>, name: string)
    requires h <= |s.log| && s.consumed <= |s.log|
  {
    if name in links then
      links[name].Vxlan? ==>
        && links[name].self !in links[name].fdb
        && forall src :: src != links[name].self ==> !Missed(s, h, links, Rec(name, src))
    else
      name in NamesIn(Records(s.log[..h]), "") || forall src :: !Missed(s, h, links, Rec(name, src))
  }

  /** Without a pending event the records hold what the gap makes of the history. */
  lemma GapDecides(s: State, h: nat, r: Rec)
    requires h <= |s.log| && s.consumed <= |s.log| && Verdict(s.Pending(), r).None?
    ensures r in Records(s.log) <==> Fate(Gap(s, h), r, r in Records(s.log[..h]))
  {
    var w := s.consumed;
    assert s.log[..w] + s.log[w..] == s.log && s.log[..h] + s.log[h..] == s.log;
    VerdictOfConcat(s.log[..w], s.log[w..], r);
    VerdictOfConcat(s.log[..h], s.log[h..], r);
    RecordsAreVerdicts(s.log, r);
    RecordsAreVerdicts(s.log[..h], r);
    if h <= w {
      assert s.log[..h] + s.log[h..w] == s.log[..w];
      VerdictOfConcat(s.log[..h], s.log[h..w], r);
    } else {
      assert s.log[w..h] + s.log[h..] == s.log[w..];
      VerdictOfConcat(s.log[w..h], s.log[h..], r);
    }
  }

  /** A start is right for an interface exactly when it loses nothing of it, whatever the order of history read and
      watch and whatever the table held before. */
  lemma StartTracksExactly(s: State, h: nat, links: map<string, Link>, name: string)
    requires IsStart(s, h, links)
    ensures Tracks(s, name) <==> StartsWell(s, h, links, name)
  {
    hide Verdict, Records, Gap;
    forall r ensures Verdict(s.Pending(), r).Some? ==> (r in Records(s.log) <==> Verdict(s.Pending(), r).value)
             ensures Verdict(s.Pending(), r).None? ==>
                       (r in Records(s.log) <==> Fate(Gap(s, h), r, r in Records(s.log[..h]))) {
      SuffixDecides(s.log, s.consumed, r);
      if Verdict(s.Pending(), r).None? { GapDecides(s, h, r); }
    }
    StartTable(s, h, links, name);
    NamesAt(Records(s.log[..h]), name);
    hide AfterHistory, NamesIn;
  }

  /** The view of an interface after the history read. */
  lemma StartTable(s: State, h: nat, links: map<string, Link>, name: string)
    requires IsStart(s, h, links)
    ensures name in s.view.links <==> name in links
    ensures name in s.view.buf <==> name !in links && name in NamesIn(Records(s.log[..h]), "")
    ensures name in links ==> (s.view.links[name].Vxlan? <==> links[name].Vxlan?)
    ensures name in links && links[name].Vxlan? ==>
              && s.view.links[name].self == links[name].self
              && forall src :: src in s.view.links[name].fdb <==>
                   InTable(links, name, src) || (src != links[name].self && Rec(name, src) in Records(s.log[..h]))
  {
    hide Records;
    var records := Records(s.log[..h]);
    forall src ensures src in SourcesIn(records, name) <==> Rec(name, src) in records {
      SourcesAt(records, name, src);
    }
    NamesAt(records, name);
  }

  lemma NamesAt(records: set<Rec>, name: string)
    ensures name in NamesIn(records, "") <==> exists src :: Rec(name, src) in records
  {
    if name in NamesIn(records, "") {
      var r :| r in records && r.name == name;
      assert Rec(name, r.src) in records;
    }
  }

  lemma {:induction false} RunTracks(states: seq<State>, actions: seq<Action>, h: nat, links: map<string, Link>,
                      i: nat, j: nat, name: string)
    requires IsRun(states, actions, h, links) && i <= j < |states|
    requires Tracks(states[i], name)
    requires forall m :: i <= m < j ==> !Forgets(states[m], actions[m], name)
    ensures Tracks(states[j], name)
    decreases j
  {
    if i < j {
      RunTracks(states, actions, h, links, i, j - 1, name);
      StepKeepsTracks(states[j - 1], actions[j - 1], states[j], name);
    }
  }

  lemma {:induction false} NeverAhead(states: seq<State>, actions: seq<Action>, h: nat, links: map<string, Link>,
                      i: nat)
    requires IsRun(states, actions, h, links) && i < |states|
    ensures states[i].consumed <= |states[i].log|
  {
    if i > 0 {
      NeverAhead(states, actions, h, links, i - 1);
      assert Next(states[i - 1], actions[i - 1], states[i]);
    }
  }

  /** In every run whose start loses nothing of the interface and without a removal that forgets its records, the
      table of an unbuffered vxlan and the pending events together give the records; once the queue is drained the
      table is the records. */
  lemma TableFollowsRecords(states: seq<State>, actions: seq<Action>, h: nat, links: map<string, Link>, j: nat,
                      name: string)
    requires IsRun(states, actions, h, links) && j < |states|
    requires StartsWell(states[0], h, links, name)
    requires forall m :: 0 <= m < j ==> !Forgets(states[m], actions[m], name)
    requires IsVxlan(states[j], name) && name !in states[j].view.buf
    ensures states[j].consumed <= |states[j].log|
    ensures var l := states[j].view.links[name];
            && Play(states[j].Pending(), name, l.self, l.fdb) == Others(states[j].log, name, l.self)
            && (states[j].consumed == |states[j].log| ==> l.fdb == Others(states[j].log, name, l.self))
  {
    hide Verdict, Records, AfterHistory, Misses, Forgets, StartsWell, Tracks;
    StartTracksExactly(states[0], h, links, name);
    RunTracks(states, actions, h, links, 0, j, name);
    NeverAhead(states, actions, h, links, j);
    TracksExactly(states[j], name);
  }

  /** A put event puts things right, whatever happened before: a missing interface is buffered,
      a buffered one with an empty table is replayed. */
  lemma PutRestores(s: State, t: State, name: string, src: string)
    requires Next(s, Consume, t) && s.log[s.consumed] == Put(Rec(name, src))
    requires name in s.view.links ==> name in s.view.buf && (IsVxlan(s, name) ==> s.view.links[name].fdb == {})
    ensures Tracks(t, name)
    ensures name in s.view.links ==> name !in t.view.buf
  {
    hide Verdict, Records;
    forall r ensures Verdict(t.Pending(), r).Some? ==> (r in Records(s.log) <==> Verdict(t.Pending(), r).value) {
      SuffixDecides(s.log, s.consumed + 1, r);
    }
    forall q ensures q in SourcesIn(Records(s.log), name) <==> Rec(name, q) in Records(s.log) {
      SourcesAt(Records(s.log), name, q);
    }
  }

  /** The exception: a vxlan that is removed and created again keeps following the records exactly if it was
      buffered, or a pending event still mentions every record of another node. */
  lemma RecreationExactly(s: State, t: State, u: State, name: string, self: string)
    requires s.consumed <= |s.log|
    requires Next(s, Vanish(name), t) && Next(t, Appear(name, Vxlan(self, {})), u)
    ensures Tracks(u, name) <==>
            name in s.view.buf ||
            forall src :: src in Others(s.log, name, self) ==> Verdict(s.Pending(), Rec(name, src)).Some?
  {
    hide Verdict, Records;
    forall r ensures Verdict(s.Pending(), r).Some? ==> (r in Records(s.log) <==> Verdict(s.Pending(), r).value) {
      SuffixDecides(s.log, s.consumed, r);
    }
    forall src ensures src in SourcesIn(Records(s.log), name) <==> Rec(name, src) in Records(s.log) {
      SourcesAt(Records(s.log), name, src);
    }
  }

  /** The table of an unbuffered vxlan is wrong about a source and no pending event mentions it. */
  ghost predicate Stale(s: State, name: string, src: string) {
    && s.consumed <= |s.log| && IsVxlan(s, name) && name !in s.view.buf
    && src != s.view.links[name].self && Verdict(s.Pending(), Rec(name, src)).None?
    && (src in s.view.links[name].fdb) != (Rec(name, src) in Records(s.log))
  }

  lemma StepStaysStale(s: State, a: Action, t: State, name: string, src: string)
    requires Stale(s, name, src) && Next(s, a, t)
    requires a != Vanish(name) && (a.Write? ==> a.e.rec != Rec(name, src))
    ensures Stale(t, name, src) && !Tracks(s, name)
  {
    match a
    case Write(e) => MoreEvents(s.log, s.consumed, e, Rec(name, src));
    case Consume => NextEvent(s.log, s.consumed, Rec(name, src));
    case _ =>
  }

  /** A wrong entry stays wrong until the record is written again or the interface goes. */
  lemma {:induction false} StaysStale(states: seq<State>, actions: seq<Action>, i: nat, j: nat, name: string,
                      src: string)
    requires |states| == |actions| + 1 && i <= j < |states|
    requires forall m :: i <= m < j ==> Next(states[m], actions[m], states[m + 1])
    requires forall m :: i <= m < j ==>
               actions[m] != Vanish(name) && (actions[m].Write? ==> actions[m].e.rec != Rec(name, src))
    requires Stale(states[i], name, src)
    ensures Stale(states[j], name, src)
    decreases j
  {
    if i < j {
      StaysStale(states, actions, i, j - 1, name, src);
      StepStaysStale(states[j - 1], actions[j - 1], states[j], name, src);
    }
  }

  /** What a start misses of an existing vxlan is stale from then on. */
  lemma MissedIsStale(s: State, h: nat, links: map<string, Link>, name: string, src: string)
    requires IsStart(s, h, links) && name in links && links[name].Vxlan? && src != links[name].self
    ensures Missed(s, h, links, Rec(name, src)) <==> Stale(s, name, src)
  {
    hide Verdict, Records, Gap, AfterHistory, NamesIn;
    StartTable(s, h, links, name);
    if Verdict(s.Pending(), Rec(name, src)).None? {
      GapDecides(s, h, Rec(name, src));
    }
  }
}
