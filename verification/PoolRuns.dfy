/** Every interleaving of `get_connection` calls, timeouts, check-ins and `close` calls. */
module PoolRuns {
  import opened Sequences
  import opened ConnectionPool

  type Call = nat

  /** `waiting` calls passed the closed check and block on the queue.  A closer holds at most one
      handle between `get_nowait` and `ibm_db.close`.  `dropped` are handles a full queue refused. */
  datatype State = State(
    size: int, queue: seq<Handle>, waiting: set<Call>, held: map<Call, Handle>, closed: bool,
    closers: set<Call>, draining: map<Call, Handle>, shut: set<Handle>, dropped: set<Handle>)

  datatype Event =
    | Enter(call: Call) | Take(call: Call) | Timeout(call: Call) | Return(call: Call)
    | BeginClose(call: Call) | DrainOne(call: Call) | ShutOne(call: Call) | EndClose(call: Call)

  function Limit(size: int): nat { if size > 0 then size else 0 }

  function Opened(size: int): set<Handle> { set h | h in Handles(Limit(size)) }

  function Start(requested: int): State {
    var size := Min(requested, MAX_SIZE);
    State(size, Handles(Limit(size)), {}, map[], false, {}, map[], {}, {})
  }

  function Next(s: State, e: Event): State {
    match e
    case Enter(c) =>
      if s.closed || c in s.waiting || c in s.held then s else s.(waiting := s.waiting + {c})
    case Take(c) =>
      if c in s.waiting && s.queue != [] then
        s.(waiting := s.waiting - {c}, held := s.held[c := s.queue[0]], queue := s.queue[1..])
      else s
    case Timeout(c) => s.(waiting := s.waiting - {c})
    case Return(c) =>
      if c in s.held then
        var h := s.held[c];
        if Full(s.size, |s.queue|) then s.(held := s.held - {c}, dropped := s.dropped + {h})
        else s.(held := s.held - {c}, queue := s.queue + [h])
      else s
    case BeginClose(c) => if c in s.closers then s else s.(closed := true, closers := s.closers + {c})
    case DrainOne(c) =>
      if c in s.closers && c !in s.draining && s.queue != [] then
        s.(draining := s.draining[c := s.queue[0]], queue := s.queue[1..])
      else s
    case ShutOne(c) =>
      if c in s.draining then s.(draining := s.draining - {c}, shut := s.shut + {s.draining[c]}) else s
    case EndClose(c) =>
      if c in s.closers && c !in s.draining && s.queue == [] then s.(closers := s.closers - {c}) else s
  }

  function Run(s: State, es: seq<Event>): State {
    if es == [] then s else Next(Run(s, es[..|es| - 1]), es[|es| - 1])
  }

  ghost predicate Injective(m: map<Call, Handle>) {
    forall c, d :: c in m && d in m && m[c] == m[d] ==> c == d
  }

  ghost predicate Queued(s: State, h: Handle) { h in s.queue }
  ghost predicate Held(s: State, h: Handle) { exists c :: c in s.held && s.held[c] == h }
  ghost predicate Draining(s: State, h: Handle) { exists c :: c in s.draining && s.draining[c] == h }

  /** Every opened handle is in exactly one place, and no place has it twice. */
  ghost predicate Inv(s: State) {
    && Distinct(s.queue) && Injective(s.held) && Injective(s.draining)
    && (forall h :: Queued(s, h) ==> h in Opened(s.size) && !Held(s, h) && !Draining(s, h) && h !in s.shut)
    && (forall h :: Held(s, h) ==> h in Opened(s.size) && !Draining(s, h) && h !in s.shut)
    && (forall h :: Draining(s, h) ==> h in Opened(s.size) && h !in s.shut)
    && (forall h :: h in s.shut ==> h in Opened(s.size))
    && (forall h :: h in Opened(s.size) ==> Queued(s, h) || Held(s, h) || Draining(s, h) || h in s.shut)
    && s.dropped == {}
    && (forall c :: c in s.draining ==> c in s.closers)
    && (s.closers != {} ==> s.closed)
  }

  lemma OpenedSize(size: int)
    ensures |Opened(size)| == Limit(size)
  {
    DistinctSetSize(Handles(Limit(size)));
  }

  lemma StaysInjective(m: map<Call, Handle>, c: Call, h: Handle)
    requires Injective(m) && forall d :: d in m ==> m[d] != h
    ensures Injective(m[c := h])
  {
  }

  /** The queue always has room for a handle that is out: `put_nowait` never raises. */
  lemma ReturnFindsRoom(s: State, c: Call)
    requires Inv(s) && c in s.held
    ensures |s.queue| < s.size && !Full(s.size, |s.queue|)
  {
    assert Held(s, s.held[c]);
    OpenedSize(s.size);
    forall h | h in s.queue ensures h in Opened(s.size) - {s.held[c]} {
      assert Queued(s, h);
    }
    DistinctFits(s.queue, Opened(s.size) - {s.held[c]});
  }

  /** Taking the head of the queue. */
  lemma HeadLeaves(s: State)
    requires Inv(s) && s.queue != []
    ensures forall h :: h in s.queue <==> h == s.queue[0] || h in s.queue[1..]
    ensures s.queue[0] !in s.queue[1..]
    ensures Queued(s, s.queue[0])
  {
    assert s.queue == [s.queue[0]] + s.queue[1..];
  }

  lemma TakeKeepsInv(s: State, c: Call)
    requires Inv(s) && c in s.waiting && s.queue != [] && c !in s.held
    ensures Inv(Next(s, Take(c)))
  {
    var s' := Next(s, Take(c));
    HeadLeaves(s);
    assert s'.held[c] == s.queue[0];
    forall h ensures Held(s', h) <==> Held(s, h) || h == s.queue[0] {
      if Held(s, h) { var d :| d in s.held && s.held[d] == h; assert s'.held[d] == h; }
    }
    assert forall h :: Draining(s', h) <==> Draining(s, h);
    assert forall d :: d in s.held ==> Held(s, s.held[d]);
    StaysInjective(s.held, c, s.queue[0]);
    forall h | h in Opened(s.size) ensures Queued(s', h) || Held(s', h) || Draining(s', h) || h in s'.shut {
      assert Queued(s, h) || Held(s, h) || Draining(s, h) || h in s.shut;
    }
  }

  lemma ReturnKeepsInv(s: State, c: Call)
    requires Inv(s) && c in s.held
    ensures Inv(Next(s, Return(c)))
  {
    ReturnFindsRoom(s, c);
    var s' := Next(s, Return(c));
    var x := s.held[c];
    assert Held(s, x);
    forall h ensures Held(s', h) <==> Held(s, h) && h != x {
      if Held(s, h) && h != x { var d :| d in s.held && s.held[d] == h; assert s'.held[d] == h; }
    }
    assert forall h :: Draining(s', h) <==> Draining(s, h);
    assert forall h :: h in s'.queue <==> h in s.queue || h == x;
    assert !Queued(s, x);
    forall h | h in Opened(s.size) ensures Queued(s', h) || Held(s', h) || Draining(s', h) || h in s'.shut {
      assert Queued(s, h) || Held(s, h) || Draining(s, h) || h in s.shut;
    }
  }

  lemma DrainKeepsInv(s: State, c: Call)
    requires Inv(s) && c in s.closers && c !in s.draining && s.queue != []
    ensures Inv(Next(s, DrainOne(c)))
  {
    var s' := Next(s, DrainOne(c));
    HeadLeaves(s);
    assert s'.draining[c] == s.queue[0];
    forall h ensures Draining(s', h) <==> Draining(s, h) || h == s.queue[0] {
      if Draining(s, h) { var d :| d in s.draining && s.draining[d] == h; assert s'.draining[d] == h; }
    }
    assert forall h :: Held(s', h) <==> Held(s, h);
    assert forall d :: d in s.draining ==> Draining(s, s.draining[d]);
    StaysInjective(s.draining, c, s.queue[0]);
    forall h | h in Opened(s.size) ensures Queued(s', h) || Held(s', h) || Draining(s', h) || h in s'.shut {
      assert Queued(s, h) || Held(s, h) || Draining(s, h) || h in s.shut;
    }
  }

  lemma ShutKeepsInv(s: State, c: Call)
    requires Inv(s) && c in s.draining
    ensures Inv(Next(s, ShutOne(c)))
  {
    var s' := Next(s, ShutOne(c));
    var x := s.draining[c];
    assert Draining(s, x);
    forall h ensures Draining(s', h) <==> Draining(s, h) && h != x {
      if Draining(s, h) && h != x { var d :| d in s.draining && s.draining[d] == h; assert s'.draining[d] == h; }
    }
    assert forall h :: Held(s', h) <==> Held(s, h);
    forall h | h in Opened(s.size) ensures Queued(s', h) || Held(s', h) || Draining(s', h) || h in s'.shut {
      assert Queued(s, h) || Held(s, h) || Draining(s, h) || h in s.shut;
    }
  }

  lemma SamePlacesKeepInv(s: State, s': State)
    requires Inv(s) && s'.size == s.size && s'.queue == s.queue && s'.held == s.held && s'.draining == s.draining
    requires s'.shut == s.shut && s'.dropped == s.dropped
    requires (forall c :: c in s'.draining ==> c in s'.closers) && (s'.closers != {} ==> s'.closed)
    ensures Inv(s')
  {
    assert forall h :: Held(s', h) <==> Held(s, h);
    assert forall h :: Draining(s', h) <==> Draining(s, h);
    assert forall h :: Queued(s', h) <==> Queued(s, h);
  }

  ghost predicate WaitingApart(s: State) {
    forall c :: c in s.waiting ==> c !in s.held
  }

  lemma NextKeepsInv(s: State, e: Event)
    requires Inv(s) && WaitingApart(s)
    ensures Inv(Next(s, e)) && WaitingApart(Next(s, e))
  {
    match e
    case Take(c) => if c in s.waiting && s.queue != [] { TakeKeepsInv(s, c); }
    case Return(c) => if c in s.held { ReturnKeepsInv(s, c); ReturnFindsRoom(s, c); }
    case DrainOne(c) => if c in s.closers && c !in s.draining && s.queue != [] { DrainKeepsInv(s, c); }
    case ShutOne(c) => if c in s.draining { ShutKeepsInv(s, c); }
    case _ => SamePlacesKeepInv(s, Next(s, e));
  }

  lemma {:induction false} RunKeepsInv(s: State, es: seq<Event>)
    requires Inv(s) && WaitingApart(s)
    ensures Inv(Run(s, es)) && WaitingApart(Run(s, es)) && Run(s, es).size == s.size
  {
    if es != [] {
      RunKeepsInv(s, es[..|es| - 1]);
      NextKeepsInv(Run(s, es[..|es| - 1]), es[|es| - 1]);
    }
  }

  lemma StartIsInv(requested: int)
    ensures Inv(Start(requested)) && WaitingApart(Start(requested))
  {
    var s := Start(requested);
    forall h | h in Opened(s.size) ensures Queued(s, h) {
      assert s.queue[h] == h;
    }
  }

  // ---------------------------------------------------------------- the guarantees

  /** Over every interleaving: each opened handle is in exactly one place, no handle has two holders,
      none held has been closed, none is ever dropped, and at most `size` are out. */
  lemma HandlesAreConserved(requested: int, es: seq<Event>)
    ensures var s := Run(Start(requested), es);
      && Inv(s)
      && s.dropped == {}
      && |s.held| <= |Opened(s.size)| == (if requested > 0 then Min(requested, MAX_SIZE) else 0)
      && (forall c :: c in s.held ==> s.held[c] !in s.shut)
  {
    StartIsInv(requested);
    RunKeepsInv(Start(requested), es);
    var s := Run(Start(requested), es);
    assert forall c :: c in s.held ==> Held(s, s.held[c]);
    OpenedSize(s.size);
    HeldFits(s.held, Opened(s.size));
  }

  // ---------------------------------------------------------------- progress

  lemma {:induction false} RunAppend(s: State, es: seq<Event>, more: seq<Event>)
    ensures Run(s, es + more) == Run(Run(s, es), more)
  {
    if more == [] {
      assert es + more == es;
    } else {
      var n := |more| - 1;
      RunAppend(s, es, more[..n]);
      assert (es + more)[..|es| + n] == es + more[..n];
    }
  }

  lemma TwoSteps(s: State, e: Event, f: Event)
    ensures Run(s, [e]) == Next(s, e) && Run(s, [e, f]) == Next(Next(s, e), f)
  {
    assert [e][..0] == [] && [e, f][..1] == [e];
  }

  /** A new call is served exactly if the pool is open and a handle is idle; it gets the one idle longest and
      puts it behind the others.  A call that times out leaves no trace. */
  lemma CallIsServedIffOpenAndIdle(s: State, c: Call)
    requires Inv(s) && c !in s.waiting && c !in s.held
    ensures var s' := Run(s, [Enter(c), Take(c)]);
      && (c in s'.held <==> !s.closed && s.queue != [])
      && (c in s'.held ==>
            && s' == s.(held := s.held[c := s.queue[0]], queue := s.queue[1..])
            && Next(s', Return(c)) == s.(queue := s.queue[1..] + [s.queue[0]]))
    ensures Run(s, [Enter(c), Timeout(c)]) == s
  {
    TwoSteps(s, Enter(c), Take(c));
    TwoSteps(s, Enter(c), Timeout(c));
    assert s.waiting + {c} - {c} == s.waiting;
    if !s.closed && s.queue != [] {
      var s' := Next(Next(s, Enter(c)), Take(c));
      TakeKeepsInv(Next(s, Enter(c)), c) by { SamePlacesKeepInv(s, Next(s, Enter(c))); }
      ReturnFindsRoom(s', c);
      assert s.held[c := s.queue[0]] - {c} == s.held;
    }
  }

  /** A closer left to itself closes the pool and exactly the handles it finds idle, and is then done. */
  lemma CloserShutsWhatIsIdle(s: State, c: Call) returns (es: seq<Event>)
    requires Inv(s) && c !in s.closers
    ensures Run(s, es) == s.(closed := true, queue := [], shut := s.shut + Elements(s.queue))
  {
    var s1 := Next(s, BeginClose(c));
    TwoSteps(s, BeginClose(c), BeginClose(c));
    var drain := DrainAll(s1, c);
    var s2 := Run(s1, drain);
    TwoSteps(s2, EndClose(c), EndClose(c));
    es := [BeginClose(c)] + drain + [EndClose(c)];
    RunAppend(s, [BeginClose(c)], drain);
    RunAppend(s, [BeginClose(c)] + drain, [EndClose(c)]);
    assert s.closers + {c} - {c} == s.closers;
  }

  lemma {:induction false} DrainAll(s: State, c: Call) returns (es: seq<Event>)
    requires c in s.closers && c !in s.draining
    ensures Run(s, es) == s.(queue := [], shut := s.shut + Elements(s.queue))
    decreases |s.queue|
  {
    es := [];
    if s.queue != [] {
      var s1 := Next(s, DrainOne(c));
      var s2 := Next(s1, ShutOne(c));
      assert s.draining[c := s.queue[0]] - {c} == s.draining;
      var rest := DrainAll(s2, c);
      TwoSteps(s, DrainOne(c), ShutOne(c));
      RunAppend(s, [DrainOne(c), ShutOne(c)], rest);
      es := [DrainOne(c), ShutOne(c)] + rest;
      assert Elements(s.queue) == {s.queue[0]} + Elements(s.queue[1..]);
      assert s.shut + {s.queue[0]} + Elements(s.queue[1..]) == s.shut + Elements(s.queue);
    }
  }

  /** A closer is done only once it holds nothing and sees the queue empty. */
  lemma CloserEndsOnAnEmptyQueue(s: State, c: Call)
    requires c in s.closers
    ensures c !in Next(s, EndClose(c)).closers <==> s.queue == [] && c !in s.draining
  {
  }

  // ---------------------------------------------------------------- order

  /** The handles an event has leave the queue, as the caller or closer that comes to hold one sees it. */
  function Leaving(s: State, e: Event): seq<Handle> {
    match e
    case Take(c) => if c !in s.held && c in Next(s, e).held then [Next(s, e).held[c]] else []
    case DrainOne(c) => if c !in s.draining && c in Next(s, e).draining then [Next(s, e).draining[c]] else []
    case _ => []
  }

  /** The handles an event puts into the queue. */
  function Entering(s: State, e: Event): seq<Handle> {
    match e
    case Return(c) => if c in s.held then [s.held[c]] else []
    case _ => []
  }

  function AllLeaving(s: State, es: seq<Event>): seq<Handle> {
    if es == [] then [] else AllLeaving(s, es[..|es| - 1]) + Leaving(Run(s, es[..|es| - 1]), es[|es| - 1])
  }

  function AllEntering(s: State, es: seq<Event>): seq<Handle> {
    if es == [] then [] else AllEntering(s, es[..|es| - 1]) + Entering(Run(s, es[..|es| - 1]), es[|es| - 1])
  }

  /** First in, first out: over every interleaving the handles leave the queue in the order in which they were
      opened and then returned, so the one lent is always the one idle longest. */
  lemma {:induction false} FirstInFirstOut(s: State, es: seq<Event>)
    requires Inv(s) && WaitingApart(s)
    ensures AllLeaving(s, es) + Run(s, es).queue == s.queue + AllEntering(s, es)
  {
    if es != [] {
      var n := |es| - 1;
      var mid := Run(s, es[..n]);
      FirstInFirstOut(s, es[..n]);
      RunKeepsInv(s, es[..n]);
      OneEventIsFirstInFirstOut(mid, es[n]);
      Regroup(AllLeaving(s, es[..n]), Leaving(mid, es[n]), Run(s, es).queue, mid.queue, s.queue,
              AllEntering(s, es[..n]), Entering(mid, es[n]));
    }
  }

  lemma Regroup(left: seq<Handle>, leaving: seq<Handle>, last: seq<Handle>, mid: seq<Handle>, first: seq<Handle>,
                entered: seq<Handle>, entering: seq<Handle>)
    requires left + mid == first + entered && leaving + last == mid + entering
    ensures left + leaving + last == first + (entered + entering)
  {
    assert left + leaving + last == left + (leaving + last);
    assert left + (mid + entering) == left + mid + entering;
    assert first + entered + entering == first + (entered + entering);
  }

  lemma OneEventIsFirstInFirstOut(s: State, e: Event)
    requires Inv(s) && WaitingApart(s)
    ensures Leaving(s, e) + Next(s, e).queue == s.queue + Entering(s, e)
  {
    match e {
      case Take(c) => if c in s.waiting && s.queue != [] { HeadLeaves(s); }
      case DrainOne(c) => if s.queue != [] { HeadLeaves(s); }
      case Return(c) => if c in s.held { ReturnFindsRoom(s, c); }
      case _ =>
    }
  }

  lemma {:induction false} HeldFits(m: map<Call, Handle>, domain: set<Handle>)
    requires Injective(m) && forall c :: c in m ==> m[c] in domain
    ensures |m| <= |domain|
  {
    if m != map[] {
      var c :| c in m;
      assert (m - {c}).Keys == m.Keys - {c};
      HeldFits(m - {c}, domain - {m[c]});
    }
  }

  ghost predicate NoMoreClosing(es: seq<Event>) {
    forall e :: e in es ==> !e.BeginClose?
  }

  /** Once the last closer is gone nothing is ever closed again. */
  lemma {:induction false} ClosedStaysAsIs(s: State, es: seq<Event>)
    requires s.closed && s.closers == {} && s.draining == map[] && NoMoreClosing(es)
    ensures var s' := Run(s, es); s'.shut == s.shut && s'.closed && s'.closers == {} && s'.draining == map[]
  {
    if es != [] {
      assert forall e :: e in es[..|es| - 1] ==> e in es;
      ClosedStaysAsIs(s, es[..|es| - 1]);
      assert es[|es| - 1] in es;
    }
  }

  /** Exactly when `close` closes everything.  Take the moment the last closer sees the queue empty;
      once every call has ended, the handles left open in the queue are precisely those that were held
      at that moment.  So every opened handle ends up closed if and only if none was out then. */
  lemma CloseClosesAllIffNoneWasOut(requested: int, before: seq<Event>, after: seq<Event>)
    requires var s := Run(Start(requested), before);
      s.closed && s.closers == {} && s.queue == []
    requires NoMoreClosing(after)
    requires var s' := Run(Run(Start(requested), before), after); s'.held == map[]
    ensures var s := Run(Start(requested), before);
      var s' := Run(s, after);
      && (forall h :: h in s'.queue <==> Held(s, h))
      && (s'.shut == Opened(s.size) <==> s.held == map[])
  {
    StartIsInv(requested);
    RunKeepsInv(Start(requested), before);
    var s := Run(Start(requested), before);
    RunKeepsInv(s, after);
    assert s.draining.Keys <= s.closers;
    ClosedStaysAsIs(s, after);
    var s' := Run(s, after);
    forall h ensures h in s'.queue <==> Held(s, h) {
      if h in s'.queue { assert Queued(s', h); assert Queued(s, h) || Held(s, h) || Draining(s, h) || h in s.shut; }
      if Held(s, h) { assert Queued(s', h) || Held(s', h) || Draining(s', h) || h in s'.shut; }
    }
    if c :| c in s.held {
      assert Held(s, s.held[c]);
      assert s.held[c] !in s'.shut && s.held[c] in Opened(s.size);
    } else {
      assert forall h :: !Held(s, h);
      forall h ensures h in Opened(s.size) <==> h in s'.shut {
        if h in Opened(s.size) {
          assert Queued(s, h) || Held(s, h) || Draining(s, h) || h in s.shut;
        }
      }
      assert s.held.Keys == {};
      assert s'.shut == Opened(s.size);
    }
  }
}
