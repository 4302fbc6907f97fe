/**
 Double-buffered asynchronous posting of `data_influxdb`: the main thread fills one
 buffer while a poster sends the other. The two threads are interleaved steps.
 */
module Influx {

  datatype Buf = One | Two {
    function Other(): Buf { if this == One then Two else One }
  }

  /** The objects the two threads could both touch. */
  datatype Object = Buffer(b: Buf) | Result

  /** The poster: not started, holding a buffer that it has yet to send, holding one that it has sent, or finished. */
  datatype Post = NoPost | Started(b: Buf) | Sent(b: Buf, ok: bool) | Finished(ok: bool)

  /** Who called `sendData`: a full buffer, or the first or second call in `flush`. */
  datatype Caller = Full | Flush1 | Flush2

  /** Where the main thread is. */
  datatype Pc = Idle | Enter(c: Caller) | Waiting(c: Caller) | Handling(c: Caller, ok: bool) | Launching(c: Caller)

  /** The server's reply to a post, as far as it matters: nothing, text without an error, or an error. */
  datatype Reply = Nothing | Fine | Error

  /**
   `posts` are the bodies handed to the server so far, `added` everything ever added,
   and `flushed` says how the last `flush` returned.
   */
  datatype State = State(active: Buf, data1: string, data2: string, result: Reply, failed: bool,
                         nmeas: nat, total: nat, post: Post, pc: Pc,
                         posts: seq<string>, added: string, nadded: nat, flushed: bool)
  {
    function Data(b: Buf): string { if b == One then data1 else data2 }
    function With(b: Buf, d: string): State { if b == One then this.(data1 := d) else this.(data2 := d) }
  }

  datatype Action = Add(d: string) | CallFlush | MainStep | Perform(reply: Reply, ok: bool) | Clear

  predicate Init(s: State) {
    s == State(One, "", "", Nothing, false, 0, 0, NoPost, Idle, [], "", 0, false)
  }

  ghost function Concat(posts: seq<string>): string {
    if posts == [] then "" else Concat(posts[..|posts| - 1]) + posts[|posts| - 1]
  }

  // ------------------------------------------------------------------------- steps

  predicate PosterAction(a: Action) { a.Perform? || a.Clear? }

  /** The action can happen in this state. */
  predicate Enabled(s: State, a: Action) {
    match a
    case Add(d) => s.pc == Idle
    case CallFlush => s.pc == Idle
    case MainStep => s.pc != Idle && (s.pc.Waiting? ==> s.post.Finished?)
    case Perform(_, _) => s.post.Started?
    case Clear => s.post.Sent?
  }

  /** Where `sendData` goes back to. */
  function Return(s: State, c: Caller): State {
    match c
    case Full => s.(pc := Idle)
    case Flush1 => s.(pc := Enter(Flush2))
    case Flush2 => s.(pc := Idle, flushed := !s.failed)
  }

  /** Hand the active buffer to a poster and swap the buffers. */
  function Launch(s: State): State {
    if !s.failed && s.Data(s.active) != "" then s.(post := Started(s.active), active := s.active.Other()) else s
  }

  /** Count what has been sent. */
  function Tallied(s: State): State {
    if s.failed then s else s.(total := s.total + s.nmeas, nmeas := 0)
  }

  /** One step of `sendData` on the main thread. */
  function SendStep(s: State): State
    requires s.pc != Idle && (s.pc.Waiting? ==> s.post.Finished?)
  {
    match s.pc
    case Enter(c) =>
      if s.failed then Return(s.With(s.active, ""), c)
      else if s.post != NoPost then s.(pc := Waiting(c))
      else s.(pc := Handling(c, true))
    case Waiting(c) => s.(post := NoPost, pc := Handling(c, s.post.ok))
    case Handling(c, ok) => s.(result := Nothing, failed := !ok || s.result == Error, pc := Launching(c))
    case Launching(c) => Return(Tallied(Launch(s)), c)
  }

  /** What an action does, for posts made after every `count` measurements. */
  function Next(s: State, a: Action, count: nat): State
    requires Enabled(s, a)
  {
    match a
    case Add(d) =>
      s.With(s.active, s.Data(s.active) + d)
        .(nmeas := s.nmeas + 1, nadded := s.nadded + 1, added := s.added + d, flushed := false,
          pc := if s.nmeas + 1 >= count then Enter(Full) else Idle)
    case CallFlush => s.(pc := Enter(Flush1), flushed := false)
    case MainStep => SendStep(s)
    case Perform(reply, ok) =>
      s.(posts := s.posts + [s.Data(s.post.b)], result := if reply == Nothing then s.result else reply, post := Sent(s.post.b, ok))
    case Clear => s.With(s.post.b, "").(post := Finished(s.post.ok))
  }

  /** The objects that an action reads or writes. */
  function Touches(s: State, a: Action): set<Object>
    requires Enabled(s, a)
  {
    match a
    case Add(_) => {Buffer(s.active)}
    case CallFlush => {}
    case MainStep =>
      (match s.pc
       case Enter(_) => if s.failed then {Buffer(s.active)} else {}
       case Waiting(_) => {}
       case Handling(_, _) => {Result}
       case Launching(_) => {Buffer(s.active)}
       case Idle => {})
    case Perform(_, _) => {Buffer(s.post.b), Result}
    case Clear => {Buffer(s.post.b)}
  }

  /** The state with another value in one of those objects: text in a buffer, or a reply. */
  ghost function Put(s: State, o: Object, d: string, r: Reply): State {
    match o
    case Buffer(b) => s.With(b, d)
    case Result => s.(result := r)
  }

  ghost predicate SameIn(s: State, t: State, o: Object) {
    match o
    case Buffer(b) => s.Data(b) == t.Data(b)
    case Result => s.result == t.result
  }

  /** An action writes only what it touches. */
  lemma {:induction false} OnlyTouchedIsWritten(s: State, a: Action, count: nat, o: Object)
    requires Enabled(s, a) && o !in Touches(s, a)
    ensures SameIn(s, Next(s, a, count), o)
  {
    if a.MainStep? {
      SendWrites(s, o);
    }
  }

  lemma {:induction false} SendWrites(s: State, o: Object)
    requires Enabled(s, MainStep) && o !in Touches(s, MainStep)
    ensures SameIn(s, SendStep(s), o)
  {
  }

  /** With another value in `o`, the action does the same and leaves that value. */
  ghost predicate Ignores(s: State, a: Action, count: nat, o: Object, d: string, r: Reply)
    requires Enabled(s, a)
  {
    var t := Put(s, o, d, r);
    Enabled(t, a) && Touches(t, a) == Touches(s, a) && Next(t, a, count) == Put(Next(s, a, count), o, d, r)
  }

  /** An action reads only what it touches. */
  lemma {:induction false} OnlyTouchedIsRead(s: State, a: Action, count: nat, o: Object, d: string, r: Reply)
    requires Enabled(s, a) && o !in Touches(s, a)
    ensures Ignores(s, a, count, o, d, r)
  {
    hide Next, Put, Ignores;
    match a
    case Add(e) => AddReads(s, e, count, o, d, r);
    case CallFlush => FlushReads(s, count, o, d, r);
    case MainStep =>
      match s.pc {
        case Enter(_) => EnterReads(s, count, o, d, r);
        case Waiting(_) => WaitReads(s, count, o, d, r);
        case Handling(_, _) => HandleReads(s, count, o, d, r);
        case Launching(_) => LaunchReads(s, count, o, d, r);
      }
    case Perform(reply, ok) => PerformReads(s, count, reply, ok, o, d, r);
    case Clear => ClearReads(s, count, o, d, r);
  }

  lemma {:induction false} AddReads(s: State, e: string, count: nat, o: Object, d: string, r: Reply)
    requires s.pc == Idle && o != Buffer(s.active)
    ensures Ignores(s, Add(e), count, o, d, r)
  {
    hide Put;
    PutKeeps(s, o, d, r);
    AddPut(s, e, count, o, d, r);
  }

  lemma {:induction false} AddPut(s: State, e: string, count: nat, o: Object, d: string, r: Reply)
    requires s.pc == Idle && o != Buffer(s.active)
    ensures Next(Put(s, o, d, r), Add(e), count) == Put(Next(s, Add(e), count), o, d, r)
  {
    match o
    case Buffer(b) => assert b == s.active.Other();
    case Result =>
  }

  lemma {:induction false} FlushReads(s: State, count: nat, o: Object, d: string, r: Reply)
    requires s.pc == Idle
    ensures Ignores(s, CallFlush, count, o, d, r)
  {
  }

  lemma {:induction false} ReturnReads(s: State, c: Caller, o: Object, d: string, r: Reply)
    ensures Return(Put(s, o, d, r), c) == Put(Return(s, c), o, d, r)
  {
    match o
    case Buffer(b) =>
    case Result =>
  }

  lemma {:induction false} EmptyReads(s: State, o: Object, d: string, r: Reply)
    requires o != Buffer(s.active)
    ensures Put(s, o, d, r).With(s.active, "") == Put(s.With(s.active, ""), o, d, r)
  {
    match o
    case Buffer(b) => assert b == s.active.Other();
    case Result =>
  }

  lemma {:induction false} PutKeeps(s: State, o: Object, d: string, r: Reply)
    ensures var t := Put(s, o, d, r);
      && t.pc == s.pc && t.failed == s.failed && t.post == s.post && t.active == s.active
      && t.nmeas == s.nmeas && t.total == s.total
      && (o != Result ==> t.result == s.result) && (forall b :: o != Buffer(b) ==> t.Data(b) == s.Data(b))
  {
  }

  lemma {:induction false} PcReads(s: State, pc: Pc, o: Object, d: string, r: Reply)
    ensures Put(s, o, d, r).(pc := pc) == Put(s.(pc := pc), o, d, r)
  {
  }

  lemma {:induction false} EnterReads(s: State, count: nat, o: Object, d: string, r: Reply)
    requires s.pc.Enter? && (s.failed ==> o != Buffer(s.active))
    ensures Ignores(s, MainStep, count, o, d, r)
  {
    hide Return, Put;
    PutKeeps(s, o, d, r);
    if s.failed {
      EmptyReads(s, o, d, r);
      ReturnReads(s.With(s.active, ""), s.pc.c, o, d, r);
    } else {
      PcReads(s, Waiting(s.pc.c), o, d, r);
      PcReads(s, Handling(s.pc.c, true), o, d, r);
    }
  }

  lemma {:induction false} WaitReads(s: State, count: nat, o: Object, d: string, r: Reply)
    requires s.pc.Waiting? && s.post.Finished?
    ensures Ignores(s, MainStep, count, o, d, r)
  {
  }

  lemma {:induction false} HandleReads(s: State, count: nat, o: Object, d: string, r: Reply)
    requires s.pc.Handling? && o != Result
    ensures Ignores(s, MainStep, count, o, d, r)
  {
    hide Put, SendStep;
    PutKeeps(s, o, d, r);
    PutText(s, o.b, d, r);
    PutText(SendStep(s), o.b, d, r);
    HandleText(s, o.b, d);
  }

  lemma {:induction false} HandleText(s: State, b: Buf, d: string)
    requires s.pc.Handling?
    ensures SendStep(s.With(b, d)) == SendStep(s).With(b, d)
  {
  }

  lemma {:induction false} LaunchPut(s: State, o: Object, d: string, r: Reply)
    requires o != Buffer(s.active)
    ensures Launch(Put(s, o, d, r)) == Put(Launch(s), o, d, r)
  {
    match o
    case Buffer(b) => assert b == s.active.Other();
    case Result =>
  }

  lemma {:induction false} TalliedPut(s: State, o: Object, d: string, r: Reply)
    ensures Tallied(Put(s, o, d, r)) == Put(Tallied(s), o, d, r)
  {
    match o
    case Buffer(b) =>
    case Result =>
  }

  lemma {:induction false} LaunchReads(s: State, count: nat, o: Object, d: string, r: Reply)
    requires s.pc.Launching? && o != Buffer(s.active)
    ensures Ignores(s, MainStep, count, o, d, r)
  {
    hide Return, Put, Launch, Tallied;
    PutKeeps(s, o, d, r);
    LaunchPut(s, o, d, r);
    TalliedPut(Launch(s), o, d, r);
    ReturnReads(Tallied(Launch(s)), s.pc.c, o, d, r);
  }

  lemma {:induction false} ClearPut(s: State, o: Object, d: string, r: Reply)
    requires s.post.Sent? && o != Buffer(s.post.b)
    ensures Next(Put(s, o, d, r), Clear, 0) == Put(Next(s, Clear, 0), o, d, r)
  {
    match o
    case Buffer(b) => assert b == s.post.b.Other();
    case Result =>
  }

  lemma {:induction false} ClearReads(s: State, count: nat, o: Object, d: string, r: Reply)
    requires s.post.Sent? && o != Buffer(s.post.b)
    ensures Ignores(s, Clear, count, o, d, r)
  {
    hide Put;
    PutKeeps(s, o, d, r);
    ClearPut(s, o, d, r);
  }

  lemma {:induction false} PerformReads(s: State, count: nat, reply: Reply, ok: bool, o: Object, d: string, r: Reply)
    requires s.post.Started? && o != Buffer(s.post.b) && o != Result
    ensures Ignores(s, Perform(reply, ok), count, o, d, r)
  {
    hide Put;
    PutKeeps(s, o, d, r);
    PerformPut(s, count, reply, ok, s.post.b.Other(), d);
    match o
    case Buffer(b) =>
      assert b == s.post.b.Other();
      PutText(s, b, d, r);
      PutText(Next(s, Perform(reply, ok), count), b, d, r);
  }

  lemma {:induction false} PutText(s: State, b: Buf, d: string, r: Reply)
    ensures Put(s, Buffer(b), d, r) == s.With(b, d)
  {
  }

  lemma {:induction false} PerformPut(s: State, count: nat, reply: Reply, ok: bool, b: Buf, d: string)
    requires s.post.Started? && b != s.post.b
    ensures Next(s.With(b, d), Perform(reply, ok), count) == Next(s, Perform(reply, ok), count).With(b, d)
  {
  }

  // --------------------------------------------------------------------- invariant

  /** What is in flight: handed to the poster and not yet sent. */
  ghost function InFlight(s: State): string
  {
    if s.post.Started? then s.Data(s.post.b) else ""
  }

  ghost predicate Inv(s: State) {
    && (s.post.Started? || s.post.Sent? ==> s.post.b == s.active.Other())
    && (s.post == NoPost || s.post.Finished? ==> s.Data(s.active.Other()) == "")
    && (s.pc.Handling? || s.pc.Launching? ==> s.post == NoPost)
    && (s.pc.Waiting? ==> s.post != NoPost)
    && (s.post.Started? || (s.post == NoPost && !s.pc.Handling?) ==> s.result == Nothing)
    && (s.failed ==> s.post == NoPost)
    && (s.failed ==> s.pc == Idle || s.pc.Enter? || s.pc.Launching?)
    && (!s.failed ==> s.added == Concat(s.posts) + InFlight(s) + s.Data(s.active) && s.total + s.nmeas == s.nadded)
    && Concat(s.posts) <= s.added
    && (s.pc != Idle && s.pc.c == Flush2 && !s.failed ==> s.Data(s.active) == "")
    && (s.flushed ==> s.pc == Idle && !s.failed && Drained(s))
  }

  /** Everything added has been posted, and nothing is pending. */
  ghost predicate Drained(s: State) {
    s.post == NoPost && s.Data(One) == "" && s.Data(Two) == "" && Concat(s.posts) == s.added && s.total == s.nadded
  }

  lemma {:induction false} InitInv(s: State)
    requires Init(s)
    ensures Inv(s)
  {
  }

  lemma {:induction false} ConcatSnoc(posts: seq<string>, p: string)
    ensures Concat(posts + [p]) == Concat(posts) + p
  {
    assert (posts + [p])[..|posts|] == posts;
  }

  /** Every step of either thread keeps the invariant. */
  lemma {:induction false} NextInv(s: State, a: Action, count: nat)
    requires Inv(s) && Enabled(s, a)
    ensures Inv(Next(s, a, count))
  {
    match a
    case Add(d) => AddInv(s, d, count);
    case CallFlush =>
    case MainStep => SendInv(s);
    case Perform(reply, ok) => PerformInv(s, reply, ok);
    case Clear => ClearInv(s);
  }

  lemma {:induction false} AddInv(s: State, d: string, count: nat)
    requires Inv(s) && Enabled(s, Add(d))
    ensures Inv(Next(s, Add(d), count))
  {
    hide Concat;
    if !s.failed {
      assert Concat(s.posts) + InFlight(s) + (s.Data(s.active) + d) == Concat(s.posts) + InFlight(s) + s.Data(s.active) + d;
    }
  }

  lemma {:induction false} SendInv(s: State)
    requires Inv(s) && Enabled(s, MainStep)
    ensures Inv(SendStep(s))
  {
    hide Concat;
    if s.pc.Launching? && !s.failed && s.Data(s.active) != "" {
      assert Concat(s.posts) + "" + s.Data(s.active) == Concat(s.posts) + s.Data(s.active) + "";
    }
  }

  lemma {:induction false} PerformInv(s: State, reply: Reply, ok: bool)
    requires Inv(s) && s.post.Started?
    ensures Inv(Next(s, Perform(reply, ok), 0))
  {
    hide Concat;
    var d := s.Data(s.post.b);
    var t := Next(s, Perform(reply, ok), 0);
    ConcatSnoc(s.posts, d);
    assert !s.failed && s.added == Concat(s.posts) + d + s.Data(s.active);
    PostedPrefix(Concat(s.posts), d, s.Data(s.active), s.added);
    assert Concat(t.posts) == Concat(s.posts) + d && InFlight(t) == "";
  }

  lemma {:induction false} PostedPrefix(c: string, d: string, r: string, added: string)
    requires added == c + d + r
    ensures added == (c + d) + "" + r && c + d <= added
  {
    assert (c + d) + "" == c + d;
  }

  lemma {:induction false} ClearInv(s: State)
    requires Inv(s) && s.post.Sent?
    ensures Inv(Next(s, Clear, 0))
  {
    hide Concat;
  }

  // --------------------------------------------------------------------- whole runs

  /** A run: a sequence of states, each reached from the one before by some enabled action of either thread. */
  ghost predicate IsRun(states: seq<State>, actions: seq<Action>, count: nat) {
    && |states| == |actions| + 1 && Init(states[0])
    && forall i :: 0 <= i < |actions| ==> Enabled(states[i], actions[i]) && states[i + 1] == Next(states[i], actions[i], count)
  }

  lemma {:induction false} RunInv(states: seq<State>, actions: seq<Action>, count: nat, i: nat)
    requires IsRun(states, actions, count) && i < |states|
    ensures Inv(states[i])
  {
    if i == 0 {
      InitInv(states[0]);
    } else {
      RunInv(states, actions, count, i - 1);
      NextInv(states[i - 1], actions[i - 1], count);
    }
  }

  /** In no reachable state do the two threads have steps ready that touch a common object. */
  lemma {:induction false} NoRace(states: seq<State>, actions: seq<Action>, count: nat, i: nat, main: Action, poster: Action)
    requires IsRun(states, actions, count) && i < |states|
    requires !PosterAction(main) && PosterAction(poster) && Enabled(states[i], main) && Enabled(states[i], poster)
    ensures Touches(states[i], main) !! Touches(states[i], poster)
  {
    hide IsRun, Concat;
    RunInv(states, actions, count, i);
  }

  /** So the order of two such steps makes no difference. */
  lemma {:induction false} StepsCommute(states: seq<State>, actions: seq<Action>, count: nat, i: nat, main: Action, poster: Action)
    requires IsRun(states, actions, count) && i < |states|
    requires !PosterAction(main) && PosterAction(poster) && Enabled(states[i], main) && Enabled(states[i], poster)
    ensures var s := states[i];
      && Enabled(Next(s, main, count), poster) && Enabled(Next(s, poster, count), main)
      && Next(Next(s, main, count), poster, count) == Next(Next(s, poster, count), main, count)
  {
    hide IsRun, Concat;
    RunInv(states, actions, count, i);
    match poster
    case Perform(reply, ok) => PerformCommutes(states[i], main, count, reply, ok);
    case Clear => ClearCommutes(states[i], main, count);
  }

  lemma {:induction false} PerformCommutes(s: State, main: Action, count: nat, reply: Reply, ok: bool)
    requires Inv(s) && !PosterAction(main) && Enabled(s, main) && s.post.Started?
    ensures Next(s, main, count).post == s.post && Enabled(Next(s, Perform(reply, ok), count), main)
    ensures Next(Next(s, main, count), Perform(reply, ok), count) == Next(Next(s, Perform(reply, ok), count), main, count)
  {
    hide Concat;
    match main
    case Add(_) =>
    case CallFlush =>
    case MainStep => assert s.pc.Enter?;
  }

  lemma {:induction false} ClearCommutes(s: State, main: Action, count: nat)
    requires Inv(s) && !PosterAction(main) && Enabled(s, main) && s.post.Sent?
    ensures Next(s, main, count).post == s.post && Enabled(Next(s, Clear, count), main)
    ensures Next(Next(s, main, count), Clear, count) == Next(Next(s, Clear, count), main, count)
  {
    hide Concat;
    match main
    case Add(_) =>
    case CallFlush =>
    case MainStep => assert s.pc.Enter?;
  }

  /** A post is launched only when none is in flight, and with the reply to the one before cleared away. */
  lemma {:induction false} OnePostAtATime(states: seq<State>, actions: seq<Action>, count: nat, i: nat)
    requires IsRun(states, actions, count) && i < |actions|
    requires states[i + 1].post.Started? && !states[i].post.Started?
    ensures states[i].post == NoPost && actions[i] == MainStep && states[i + 1].result == Nothing
  {
    RunInv(states, actions, count, i);
    RunInv(states, actions, count, i + 1);
  }

  /** Until an error, what has been posted, is in flight and is in the active buffer is together everything added, once and in order. */
  lemma {:induction false} ExactlyOnce(states: seq<State>, actions: seq<Action>, count: nat, i: nat)
    requires IsRun(states, actions, count) && i < |states|
    ensures var s := states[i];
      && (!s.failed ==> s.added == Concat(s.posts) + InFlight(s) + s.Data(s.active) && s.total + s.nmeas == s.nadded)
      && Concat(s.posts) <= s.added
  {
    RunInv(states, actions, count, i);
  }

  lemma {:induction false} ErrorStays(s: State, a: Action, count: nat)
    requires Inv(s) && Enabled(s, a) && s.failed
    ensures Next(s, a, count).failed && Next(s, a, count).posts == s.posts
  {
    hide Concat;
  }

  /** After an error nothing more is posted. */
  lemma {:induction false} NothingAfterError(states: seq<State>, actions: seq<Action>, count: nat, i: nat, j: nat)
    requires IsRun(states, actions, count) && i <= j < |states| && states[i].failed
    ensures states[j].failed && states[j].posts == states[i].posts
    decreases j
  {
    hide Next, Inv, Enabled;
    if i < j {
      NothingAfterError(states, actions, count, i, j - 1);
      RunInv(states, actions, count, j - 1);
      ErrorStays(states[j - 1], actions[j - 1], count);
    }
  }

  /** A post that the server answers with an error, or that fails altogether. */
  predicate BadPost(a: Action) { a.Perform? && (a.reply == Error || !a.ok) }

  /** The error state is set, or what will set it is on its way to the main thread. */
  ghost predicate Doomed(s: State) {
    || s.failed
    || ((s.post.Sent? || s.post.Finished?) && (!s.post.ok || s.result == Error))
    || (s.pc.Handling? && (!s.pc.ok || s.result == Error))
  }

  lemma {:induction false} BadPostDooms(s: State, a: Action, count: nat)
    requires Inv(s) && Enabled(s, a) && BadPost(a)
    ensures Doomed(Next(s, a, count))
  {
    hide Concat;
  }

  lemma {:induction false} DoomStays(s: State, a: Action, count: nat)
    requires Inv(s) && Enabled(s, a) && Doomed(s)
    ensures Doomed(Next(s, a, count)) && Next(s, a, count).posts == s.posts
  {
    hide Concat;
    match a
    case Add(_) =>
    case CallFlush =>
    case MainStep =>
    case Clear =>
  }

  lemma {:induction false} DoomHasCause(s: State, a: Action, count: nat)
    requires Inv(s) && Enabled(s, a) && !BadPost(a)
    requires Doomed(Next(s, a, count)) || Next(s, a, count).result == Error
    ensures Doomed(s) || s.result == Error
  {
    hide Concat;
    match a
    case Add(_) =>
    case CallFlush =>
    case MainStep =>
    case Perform(_, _) =>
    case Clear =>
  }

  /** Once a post has gone wrong, nothing more is posted. */
  lemma {:induction false} ErrorIsNoticed(states: seq<State>, actions: seq<Action>, count: nat, i: nat, j: nat)
    requires IsRun(states, actions, count) && i < j < |states| && BadPost(actions[i])
    ensures Doomed(states[j]) && states[j].posts == states[i + 1].posts
    decreases j
  {
    hide Next, Inv, Enabled, Doomed;
    RunInv(states, actions, count, j - 1);
    if j == i + 1 {
      BadPostDooms(states[i], actions[i], count);
    } else {
      ErrorIsNoticed(states, actions, count, i, j - 1);
      DoomStays(states[j - 1], actions[j - 1], count);
    }
  }

  /** The error state is entered only because a post has gone wrong. */
  lemma {:induction false} ErrorHasCause(states: seq<State>, actions: seq<Action>, count: nat, j: nat) returns (i: nat)
    requires IsRun(states, actions, count) && j < |states| && (Doomed(states[j]) || states[j].result == Error)
    ensures i < j && BadPost(actions[i])
  {
    hide Next, Inv, Enabled;
    assert j > 0;
    RunInv(states, actions, count, j - 1);
    if BadPost(actions[j - 1]) {
      i := j - 1;
    } else {
      DoomHasCause(states[j - 1], actions[j - 1], count);
      i := ErrorHasCause(states, actions, count, j - 1);
    }
  }

  /** A `flush` throws if and only if some post has gone wrong. */
  lemma {:induction false} FlushReports(states: seq<State>, actions: seq<Action>, count: nat, j: nat)
    requires IsRun(states, actions, count) && j < |actions|
    requires states[j].pc != Idle && states[j].pc.c == Flush2 && states[j + 1].pc == Idle
    ensures states[j + 1].failed <==> exists i :: 0 <= i <= j && BadPost(actions[i])
  {
    hide Concat;
    if states[j + 1].failed {
      var i := ErrorHasCause(states, actions, count, j + 1);
    }
    if i :| 0 <= i <= j && BadPost(actions[i]) {
      ErrorIsNoticed(states, actions, count, i, j + 1);
      FlushDrains(states, actions, count, j);
    }
  }

  /** In the error state a further `sendData` drops what has been added since. */
  lemma {:induction false} ErrorDiscards(s: State)
    requires s.failed && s.pc.Enter?
    ensures SendStep(s).Data(s.active) == "" && SendStep(s).post == s.post && SendStep(s).failed
  {
  }

  /** Neither thread can block the other for good: the caller may call, or a step can be taken, whatever the server answers. */
  lemma {:induction false} NoDeadlock(s: State, d: string, reply: Reply, ok: bool)
    requires Inv(s)
    ensures s.pc == Idle ==> Enabled(s, Add(d)) && Enabled(s, CallFlush)
    ensures s.pc != Idle ==> Enabled(s, MainStep) || Enabled(s, Perform(reply, ok)) || Enabled(s, Clear)
    ensures s.post.Started? ==> Enabled(s, Perform(reply, ok))
  {
    hide Concat;
  }

  /** An upper bound on the steps until every call has returned and every post is done. */
  ghost function StepsLeft(s: State): nat {
    (match s.pc
     case Idle => 0
     case Enter(c) => 6 + (if c == Flush1 then 8 else 0)
     case Waiting(c) => 5 + (if c == Flush1 then 8 else 0)
     case Handling(c, _) => 4 + (if c == Flush1 then 8 else 0)
     case Launching(c) => 3 + (if c == Flush1 then 8 else 0))
    + (match s.post
       case NoPost => 0
       case Started(_) => 2
       case Sent(_, _) => 1
       case Finished(_) => 0)
  }

  /** Every step but a new call brings that nearer, so `addMeasurement` and `flush` return. */
  lemma {:induction false} CallsReturn(s: State, a: Action, count: nat)
    requires Inv(s) && Enabled(s, a) && !a.Add? && !a.CallFlush?
    ensures StepsLeft(Next(s, a, count)) < StepsLeft(s)
  {
    hide Concat;
  }

  /** Between calls no more measurements wait than the count, which is when they are posted. */
  lemma {:induction false} PostsOnTime(states: seq<State>, actions: seq<Action>, count: nat, i: nat)
    requires IsRun(states, actions, count) && i < |states|
    ensures states[i].pc == Idle && !states[i].failed ==> states[i].nmeas == 0 || states[i].nmeas < count
  {
    hide Inv, Concat;
    if i > 0 {
      PostsOnTime(states, actions, count, i - 1);
      RunInv(states, actions, count, i - 1);
      TimelyStep(states[i - 1], actions[i - 1], count);
    }
  }

  lemma {:induction false} TimelyStep(s: State, a: Action, count: nat)
    requires Inv(s) && Enabled(s, a)
    requires s.pc == Idle && !s.failed ==> s.nmeas == 0 || s.nmeas < count
    ensures var t := Next(s, a, count); t.pc == Idle && !t.failed ==> t.nmeas == 0 || t.nmeas < count
  {
    hide Concat;
  }

  /** A `flush` that does not fail leaves both buffers empty, nothing in flight, and everything posted. */
  lemma {:induction false} FlushDrains(states: seq<State>, actions: seq<Action>, count: nat, i: nat)
    requires IsRun(states, actions, count) && i < |actions|
    requires states[i].pc != Idle && states[i].pc.c == Flush2 && states[i + 1].pc == Idle
    ensures states[i + 1].failed || Drained(states[i + 1])
  {
    RunInv(states, actions, count, i);
    RunInv(states, actions, count, i + 1);
  }

  // ------------------------------------------------------------------ the buffer type

  /** Length of the C string at the start of `s`. */
  function StrLen(s: seq<char>): (n: nat)
    requires '\0' in s
    ensures n < |s| && s[n] == '\0' && forall i :: 0 <= i < n ==> s[i] != '\0'
  {
    if s[0] == '\0' then 0 else 1 + StrLen(s[1..])
  }

  lemma {:induction false} StrLenIs(s: seq<char>, n: nat)
    requires n < |s| && s[n] == '\0' && forall i :: 0 <= i < n ==> s[i] != '\0'
    ensures '\0' in s && StrLen(s) == n
  {
  }

  lemma {:induction false} TailLength(s: seq<char>, k: nat)
    requires '\0' in s && k <= StrLen(s)
    ensures '\0' in s[k..] && StrLen(s[k..]) == StrLen(s) - k
  {
    assert s[k..][StrLen(s) - k] == '\0';
    StrLenIs(s[k..], StrLen(s) - k);
  }

  /** `vector::resize`: cut off, or filled up with NULs. */
  function Resize(s: seq<char>, n: nat): (r: seq<char>)
    ensures |r| == n
  {
    if n <= |s| then s[..n] else s + seq(n - |s|, _ => '\0')
  }

  /** A string that ends more than one place before the new size survives, with a terminator put at the end. */
  lemma {:induction false} ResizeKeeps(s: seq<char>, n: nat)
    requires '\0' in s && StrLen(s) + 1 < n
    ensures var r := Resize(s, n)[n - 1 := '\0'];
            '\0' in r && StrLen(r) == StrLen(s) && r[..StrLen(s)] == s[..StrLen(s)]
  {
    hide StrLen;
    var k := StrLen(s);
    var r := Resize(s, n)[n - 1 := '\0'];
    assert forall i :: 0 <= i <= k ==> r[i] == s[i];
    StrLenIs(r, k);
  }

  /** A growing character buffer that tracks where its string ends, but learns of appended text only later. */
  class CharBuffer {
    var buffer: seq<char>
    var buflen: nat

    ghost predicate Valid()
      reads this
    {
      '\0' in buffer && buflen <= StrLen(buffer)
    }

    ghost function Contents(): string
      requires Valid()
      reads this
    {
      buffer[..StrLen(buffer)]
    }

    constructor ()
      ensures Valid() && Contents() == ""
    {
      buffer := ['\0'];
      buflen := 0;
    }

    method Clear()
      requires Valid()
      modifies this
      ensures Valid() && Contents() == ""
    {
      buffer := buffer[0 := '\0'];
      buflen := 0;
      StrLenIs(buffer, 0);
    }

    /** Find the end of the string and make room for `length` more characters and a terminator. */
    method GetSpace(length: nat)
      requires Valid()
      modifies this
      ensures Valid() && Contents() == old(Contents()) && buflen == |Contents()|
      ensures length > 0 ==> |buffer| == buflen + length + 1 && buffer[buflen + length] == '\0'
    {
      hide StrLen;
      TailLength(buffer, buflen);
      buflen := buflen + StrLen(buffer[buflen..]);
      if length > 0 {
        Extend(length);
      }
    }

    /** Make room behind the string. */
    method Extend(length: nat)
      requires Valid() && buflen == StrLen(buffer) && length > 0
      modifies this`buffer
      ensures Valid() && Contents() == old(Contents()) && buflen == |Contents()|
      ensures |buffer| == buflen + length + 1 && buffer[buflen + length] == '\0'
    {
      hide StrLen, Resize;
      ResizeKeeps(buffer, buflen + length + 1);
      buffer := Resize(buffer, buflen + length + 1)[buflen + length := '\0'];
    }

    /** Append a C string, as `addMeasurement` does. */
    method Append(data: string)
      requires Valid() && '\0' !in data
      modifies this
      ensures Valid() && Contents() == old(Contents()) + data
    {
      GetSpace(|data|);
      ghost var was := buffer[..buflen];
      if |data| > 0 {
        buffer := buffer[..buflen] + data + ['\0'];
        StrLenIs(buffer, buflen + |data|);
      }
    }

    method Empty() returns (e: bool)
      requires Valid()
      modifies this
      ensures Valid() && Contents() == old(Contents()) && e == (Contents() == "")
    {
      GetSpace(0);
      e := buflen == 0;
    }
  }
}
