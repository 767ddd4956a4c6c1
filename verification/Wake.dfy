/** The viewer's two threads: the network thread writes rects into the shared
    framebuffer and publishes them in batches, a coalesced wake-up event
    tells the main thread to pull. Every atomic operation is one action. */
module Wake {
  import opened Common

  /** The network thread. `blocks` says that a blocking read follows. */
  datatype Net =
    | Running
    | Waiting                           // in a read that blocks
    | Ringing(blocks: bool)             // published, before the exchange
    | Pushing(blocks: bool)             // the flag was clear: event to be pushed
    | Undoing(blocks: bool)             // the push failed: flag to be cleared

  datatype State = State(
    put: nat,                           // updates written into the framebuffer
    published: nat,                     // of which published
    taken: nat,                         // of which uploaded
    batch: bool,                        // a batch is open
    net: Net,
    flag: bool,                         // wake_pending
    queue: nat,                         // wake-up events in the main queue
    pull: bool,                         // one was taken out of it
    cleared: bool,                      // the flag is cleared, the pull is under way
    missed: bool)                       // a push failed since the last pull

  const START: State := State(0, 0, 0, false, Running, false, 0, false, false, false)

  datatype Act =
    | Put                               // a rect, under the lock
    | Read(enough: bool, aged: bool)    // flush the batch unless enough bytes are here
    | Publish                           // before a control message, after a picture
    | Arrive
    | Exchange
    | Push(ok: bool)
    | Undo
    | Poll                              // the main thread takes a wake-up event
    | Clear
    | Pull                              // under the lock: everything written so far

  predicate Enabled(s: State, a: Act) {
    match a
    case Put => s.net == Running
    case Read(_, _) => s.net == Running
    case Publish => s.net == Running
    case Arrive => s.net == Waiting
    case Exchange => s.net.Ringing?
    case Push(_) => s.net.Pushing?
    case Undo => s.net.Undoing?
    case Poll => s.queue > 0 && !s.cleared
    case Clear => s.pull && !s.cleared
    case Pull => s.cleared
  }

  function After(blocks: bool): Net { if blocks then Waiting else Running }

  function Published(s: State, blocks: bool): State {
    s.(published := s.put, batch := false, net := Ringing(blocks))
  }

  function Next(s: State, a: Act): State {
    if !Enabled(s, a) then s else
    match a
    case Put => s.(put := s.put + 1, batch := true)
    case Read(enough, aged) =>
      if s.batch && (!enough || aged) then Published(s, !enough) else s.(net := After(!enough))
    case Publish => Published(s, false)
    case Arrive => s.(net := Running)
    case Exchange => s.(flag := true, net := if s.flag then After(s.net.blocks) else Pushing(s.net.blocks))
    case Push(ok) =>
      if ok then s.(queue := s.queue + 1, net := After(s.net.blocks))
      else s.(missed := true, net := Undoing(s.net.blocks))
    case Undo => s.(flag := false, net := After(s.net.blocks))
    case Poll => s.(queue := s.queue - 1, pull := true)
    case Clear => s.(flag := false, pull := false, cleared := true)
    case Pull => s.(taken := s.put, missed := false, cleared := false)
  }

  function Run(s: State, acts: seq<Act>): State {
    if acts == [] then s else Next(Run(s, acts[..|acts| - 1]), acts[|acts| - 1])
  }

  /** The flag is set exactly while one wake-up is on its way. */
  predicate OneWakeUp(s: State) {
    s.queue + One(s.pull) + One(s.net.Pushing? || s.net.Undoing?) == One(s.flag)
  }

  /** Something is published and not uploaded only while a wake-up is on its
      way, a pull is under way or a push has failed. */
  predicate NothingForgotten(s: State) {
    && s.taken <= s.put && s.published <= s.put
    && (s.published > s.taken ==> s.flag || s.cleared || s.net.Ringing? || s.missed)
    && (s.published > s.taken && s.net.Undoing? ==> s.cleared || s.missed)
    && (s.put > s.published ==> s.batch || s.taken >= s.put)
    && (s.batch ==> s.net == Running)
  }

  ghost predicate Keeps(s: State) { OneWakeUp(s) && NothingForgotten(s) }

  lemma WritesKeep(s: State, a: Act)
    requires Keeps(s) && Enabled(s, a) && (a.Put? || a.Read? || a.Publish? || a.Arrive?)
    ensures Keeps(Next(s, a))
  {}

  lemma RingsKeep(s: State, a: Act)
    requires Keeps(s) && Enabled(s, a) && (a.Exchange? || a.Push? || a.Undo?)
    ensures Keeps(Next(s, a))
  {}

  lemma PullsKeep(s: State, a: Act)
    requires Keeps(s) && Enabled(s, a) && (a.Poll? || a.Clear? || a.Pull?)
    ensures Keeps(Next(s, a))
  {}

  lemma NextKeeps(s: State, a: Act)
    requires Keeps(s)
    ensures Keeps(Next(s, a))
  {
    hide Keeps, Enabled;
    if Enabled(s, a) {
      match a
      case Put => WritesKeep(s, a);
      case Read(_, _) => WritesKeep(s, a);
      case Publish => WritesKeep(s, a);
      case Arrive => WritesKeep(s, a);
      case Exchange => RingsKeep(s, a);
      case Push(_) => RingsKeep(s, a);
      case Undo => RingsKeep(s, a);
      case _ => PullsKeep(s, a);
    }
  }

  lemma {:induction false} RunKeeps(acts: seq<Act>)
    ensures Keeps(Run(START, acts))
  {
    hide Keeps, Next;
    if acts == [] {
      StartKeeps();
    } else {
      RunKeeps(acts[..|acts| - 1]);
      NextKeeps(Run(START, acts[..|acts| - 1]), acts[|acts| - 1]);
    }
  }

  lemma StartKeeps()
    ensures Keeps(START)
  {}

  /** Nothing moves any more without new data or a new event. */
  predicate AtRest(s: State) {
    s.queue == 0 && !s.pull && !s.cleared && s.net == Waiting
  }

  /** In every interleaving: with both threads asleep every pixel that was
      received is on the texture, or pushing an event failed since the last
      pull. */
  lemma NoLostWakeUp(acts: seq<Act>)
    ensures var s := Run(START, acts); AtRest(s) && !s.missed ==> s.taken == s.put
    ensures Run(START, acts).queue <= 1
  {
    RunKeeps(acts);
  }

  /** A read that may block, or comes when the batch is old enough, publishes
      all that was written, and rings for what is not uploaded yet; any other
      read leaves the batch open. */
  predicate Flushed(s: State, t: State, enough: bool, aged: bool) {
    if enough && !aged then t == s
    else
      && (t.published == t.put || t.taken == t.put)
      && (s.put > s.published && s.put > s.taken ==> t.net == Ringing(!enough))
  }

  lemma ReadFlushes(s: State, enough: bool, aged: bool)
    requires NothingForgotten(s) && s.net == Running
    ensures Flushed(s, Next(s, Read(enough, aged)), enough, aged)
  {}

  /** So it is in every interleaving. */
  lemma ReadPublishes(acts: seq<Act>, enough: bool, aged: bool)
    requires Run(START, acts).net == Running
    ensures Flushed(Run(START, acts), Run(START, acts + [Read(enough, aged)]), enough, aged)
  {
    hide Next, Flushed, OneWakeUp, NothingForgotten;
    RunKeeps(acts);
    ReadFlushes(Run(START, acts), enough, aged);
    RunSnoc(acts, Read(enough, aged));
  }

  lemma RunSnoc(acts: seq<Act>, a: Act)
    ensures Run(START, acts + [a]) == Next(Run(START, acts), a)
  {
    hide Next;
    assert (acts + [a])[..|acts|] == acts;
  }

  /** A failed push does strand what was published, and the next published
      batch brings it along. */
  lemma FailedPush(s: State)
    requires OneWakeUp(s) && NothingForgotten(s) && AtRest(s) && s.taken == s.put
    ensures var t := Next(Next(Next(Next(Next(Next(s, Arrive), Put), Read(false, false)), Exchange), Push(false)), Undo);
      && AtRest(t) && t.missed && t.taken < t.put
      && var u := Next(Next(Next(Next(Next(t, Arrive), Put), Read(false, false)), Exchange), Push(true));
         Next(Next(Next(u, Poll), Clear), Pull).taken == t.put + 1
  {}
}
