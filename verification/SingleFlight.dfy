/** The single-flight resolver as interleaved steps: a mutex, a map from keys to
    calls, and a done channel per call. Callers run in any order; a schedule
    picks who moves next and what a resolution returns. */
module SingleFlight {
  import opened Options

  /** What a resolution produced: a result or an error, as one value. */
  type Outcome = int

  datatype Call = Call(done: bool, res: Option<Outcome>)

  /** Where a caller stands. c is the call it got; lead says whether it created it. */
  datatype Pc =
    | Arriving                                    // before Lock
    | InLock                                      // holds the mutex, map not read yet
    | Found(c: nat, lead: bool)                   // call looked up or inserted, mutex still held
    | Leading(c: nat)                             // released, about to resolve
    | Resolved(c: nat)                            // result written, channel not closed yet
    | Waiting(c: nat)                             // released, blocked on the channel
    | Finishing(c: nat, lead: bool)               // about to read the call's result
    | Returned(c: nat, lead: bool, res: Option<Outcome>)

  datatype State = State(mu: Option<nat>, once: map<string, nat>, calls: seq<Call>, pcs: seq<Pc>,
                         log: seq<(string, Outcome)>)

  function Init(n: nat): State {
    State(None, map[], [], seq(n, _ => Arriving), [])
  }

  /** Caller i of the given keys makes one move, or None when it cannot. A
      resolution, when it happens, returns v and is logged with its key. */
  function Next(keys: seq<string>, s: State, i: nat, v: Outcome): Option<State>
    requires |s.pcs| == |keys| && i < |keys|
  {
    match s.pcs[i]
    case Arriving =>
      if s.mu.Some? then None else Some(s.(mu := Some(i), pcs := s.pcs[i := InLock]))
    case InLock =>
      if keys[i] in s.once then Some(s.(pcs := s.pcs[i := Found(s.once[keys[i]], false)]))
      else
        var c := |s.calls|;
        Some(s.(once := s.once[keys[i] := c], calls := s.calls + [Call(false, None)],
                pcs := s.pcs[i := Found(c, true)]))
    case Found(c, lead) =>
      Some(s.(mu := None, pcs := s.pcs[i := if lead then Leading(c) else Waiting(c)]))
    case Leading(c) =>
      if c >= |s.calls| then None
      else
        var written := s.calls[c].(res := Some(v));
        Some(s.(calls := s.calls[c := written], pcs := s.pcs[i := Resolved(c)], log := s.log + [(keys[i], v)]))
    case Resolved(c) =>
      if c >= |s.calls| then None
      else Some(s.(calls := s.calls[c := s.calls[c].(done := true)], pcs := s.pcs[i := Finishing(c, true)]))
    case Waiting(c) =>
      if c >= |s.calls| || !s.calls[c].done then None else Some(s.(pcs := s.pcs[i := Finishing(c, false)]))
    case Finishing(c, lead) =>
      if c >= |s.calls| then None else Some(s.(pcs := s.pcs[i := Returned(c, lead, s.calls[c].res)]))
    case Returned(_, _, _) => None
  }

  /** The state after a schedule; moves that are not possible are skipped. */
  ghost function After(keys: seq<string>, schedule: seq<(nat, Outcome)>): (s: State)
    ensures |s.pcs| == |keys|
    decreases |schedule|
  {
    if schedule == [] then Init(|keys|)
    else
      var s := After(keys, schedule[..|schedule| - 1]);
      var (i, v) := schedule[|schedule| - 1];
      if i < |keys| && Next(keys, s, i, v).Some? then Next(keys, s, i, v).value else s
  }

  // ---- the invariant ----------------------------------------------------------

  predicate HasCall(p: Pc) { !p.Arriving? && !p.InLock? }

  predicate Leads(p: Pc) {
    match p
    case Found(_, lead) => lead
    case Leading(_) => true
    case Resolved(_) => true
    case Finishing(_, lead) => lead
    case Returned(_, lead, _) => lead
    case _ => false
  }

  predicate InMutex(p: Pc) { p.InLock? || p.Found? }

  /** What the leader's position says about its call. */
  predicate CallAgrees(p: Pc, call: Call) {
    && (call.res.Some? <==> p.Resolved? || p.Finishing? || p.Returned?)
    && (call.done <==> p.Finishing? || p.Returned?)
  }

  ghost predicate Owns(s: State, i: nat, c: nat) {
    i < |s.pcs| && HasCall(s.pcs[i]) && s.pcs[i].c == c && Leads(s.pcs[i])
  }

  ghost predicate MutexOk(keys: seq<string>, s: State) {
    && |s.pcs| == |keys|
    && (forall i :: 0 <= i < |keys| ==> (InMutex(s.pcs[i]) <==> s.mu == Some(i)))
    && (s.mu.Some? ==> s.mu.value < |keys|)
  }

  /** Keys and calls correspond one to one, and callers hold the call of their key. */
  ghost predicate CallsOk(keys: seq<string>, s: State) {
    && |s.pcs| == |keys|
    && (forall k :: k in s.once ==> s.once[k] < |s.calls|)
    && (forall j, k :: j in s.once && k in s.once && s.once[j] == s.once[k] ==> j == k)
    && (forall i :: 0 <= i < |keys| && HasCall(s.pcs[i]) ==> keys[i] in s.once && s.once[keys[i]] == s.pcs[i].c)
  }

  /** Every call has exactly one leader. */
  ghost predicate LeadersOk(s: State) {
    && (forall i, j :: 0 <= i < j < |s.pcs| && Leads(s.pcs[i]) && Leads(s.pcs[j]) ==> s.pcs[i].c != s.pcs[j].c)
    && (forall c {:trigger Led(s, c)} :: 0 <= c < |s.calls| ==> Led(s, c))
  }

  ghost predicate HoldersOk(s: State) {
    && (forall i :: 0 <= i < |s.pcs| && HasCall(s.pcs[i]) ==> HolderOk(s, s.pcs[i]))
    && (forall c :: 0 <= c < |s.calls| && s.calls[c].done ==> s.calls[c].res.Some?)
  }

  /** Exactly the keys whose result is written have been resolved, each once,
      and what is written is what the resolution returned. */
  ghost predicate LogOk(s: State) {
    && (forall m, n :: 0 <= m < n < |s.log| ==> s.log[m].0 != s.log[n].0)
    && (forall m :: 0 <= m < |s.log| ==> Holds(s, s.log[m].0, s.log[m].1))
    && (forall k, v :: Holds(s, k, v) ==> (k, v) in s.log)
  }

  /** The call of this key holds this result. */
  ghost predicate Holds(s: State, k: string, v: Outcome) {
    k in s.once && s.once[k] < |s.calls| && s.calls[s.once[k]].res == Some(v)
  }

  ghost predicate Inv(keys: seq<string>, s: State) {
    MutexOk(keys, s) && CallsOk(keys, s) && LeadersOk(s) && HoldersOk(s) && LogOk(s)
  }

  /** Every call has a leader on its way. */
  ghost predicate Led(s: State, c: nat) {
    exists i :: Owns(s, i, c)
  }

  ghost predicate HolderOk(s: State, p: Pc)
    requires HasCall(p)
  {
    && p.c < |s.calls|
    && (Leads(p) ==> CallAgrees(p, s.calls[p.c]))
    && (p.Finishing? ==> s.calls[p.c].done && s.calls[p.c].res.Some?)
    && (p.Returned? ==> s.calls[p.c].done && p.res == s.calls[p.c].res && p.res.Some?)
  }

  lemma InitInv(keys: seq<string>)
    ensures Inv(keys, Init(|keys|))
  {
  }

  lemma StepKeepsCalls(keys: seq<string>, s: State, i: nat, v: Outcome)
    requires Inv(keys, s) && i < |keys| && Next(keys, s, i, v).Some?
    ensures CallsOk(keys, Next(keys, s, i, v).value)
  {
    hide MutexOk, LeadersOk, LogOk, HolderOk;
  }

  lemma StepKeepsMutex(keys: seq<string>, s: State, i: nat, v: Outcome)
    requires Inv(keys, s) && i < |keys| && Next(keys, s, i, v).Some?
    ensures MutexOk(keys, Next(keys, s, i, v).value)
  {
    hide CallsOk, HoldersOk, LeadersOk, LogOk;
  }

  lemma StepKeepsLeaders(keys: seq<string>, s: State, i: nat, v: Outcome)
    requires Inv(keys, s) && i < |keys| && Next(keys, s, i, v).Some?
    ensures LeadersOk(Next(keys, s, i, v).value)
  {
    hide MutexOk, LogOk, CallAgrees;
    var s' := Next(keys, s, i, v).value;
    forall c {:trigger Led(s', c)} | 0 <= c < |s'.calls| ensures Led(s', c) {
      if c < |s.calls| {
        assert Led(s, c);
        var j :| Owns(s, j, c);
        assert Owns(s', j, c);
      } else {
        assert Owns(s', i, c);
      }
    }
  }

  /** Writing or closing a call touches only what its own leader may say about it. */
  lemma WriteKeepsHolders(keys: seq<string>, s: State, i: nat, v: Outcome)
    requires Inv(keys, s) && i < |keys| && Next(keys, s, i, v).Some?
    requires s.pcs[i].Leading? || s.pcs[i].Resolved?
    ensures HoldersOk(Next(keys, s, i, v).value)
  {
    hide MutexOk, LogOk, Led;
    var s' := Next(keys, s, i, v).value;
    assert HolderOk(s, s.pcs[i]);
    forall j | 0 <= j < |keys| && HasCall(s'.pcs[j]) ensures HolderOk(s', s'.pcs[j]) {
      if j != i { assert s'.pcs[j] == s.pcs[j] && HolderOk(s, s.pcs[j]); }
    }
  }

  lemma MoveKeepsHolders(keys: seq<string>, s: State, i: nat, v: Outcome)
    requires Inv(keys, s) && i < |keys| && Next(keys, s, i, v).Some?
    requires !s.pcs[i].Leading? && !s.pcs[i].Resolved?
    ensures HoldersOk(Next(keys, s, i, v).value)
  {
    hide MutexOk, LogOk, LeadersOk;
    var s' := Next(keys, s, i, v).value;
    assert HasCall(s.pcs[i]) ==> HolderOk(s, s.pcs[i]);
    forall j | 0 <= j < |keys| && HasCall(s'.pcs[j]) ensures HolderOk(s', s'.pcs[j]) {
      if j != i { assert s'.pcs[j] == s.pcs[j] && HolderOk(s, s.pcs[j]); }
    }
  }

  lemma StepKeepsLog(keys: seq<string>, s: State, i: nat, v: Outcome)
    requires Inv(keys, s) && i < |keys| && Next(keys, s, i, v).Some?
    ensures LogOk(Next(keys, s, i, v).value)
  {
    hide LeadersOk, LogOk, Next;
    assert HasCall(s.pcs[i]) ==> HolderOk(s, s.pcs[i]);
    if s.pcs[i].Leading? { LogResolution(keys, s, i, v); } else { LogStays(keys, s, i, v); }
  }

  /** Any other move writes no result. */
  lemma LogStays(keys: seq<string>, s: State, i: nat, v: Outcome)
    requires |s.pcs| == |keys| && LogOk(s) && i < |keys| && !s.pcs[i].Leading? && Next(keys, s, i, v).Some?
    ensures LogOk(Next(keys, s, i, v).value)
  {
    hide LogOk;
    var s' := Next(keys, s, i, v).value;
    assert s'.log == s.log;
    forall k, w ensures Holds(s', k, w) <==> Holds(s, k, w) {}
    SameHoldsSameLog(s, s');
  }

  lemma SameHoldsSameLog(s: State, s': State)
    requires LogOk(s) && s'.log == s.log && forall k, w :: Holds(s', k, w) <==> Holds(s, k, w)
    ensures LogOk(s')
  {
    hide Holds;
  }

  /** Resolving writes one call, the one of the caller's key, and logs the same value. */
  lemma LogResolution(keys: seq<string>, s: State, i: nat, v: Outcome)
    requires CallsOk(keys, s) && LogOk(s) && i < |keys| && s.pcs[i].Leading? && HolderOk(s, s.pcs[i])
    ensures Next(keys, s, i, v).Some? && LogOk(Next(keys, s, i, v).value)
  {
    var s' := Next(keys, s, i, v).value;
    forall k, w ensures Holds(s', k, w) <==> Holds(s, k, w) || (k == keys[i] && w == v) {}
    forall w ensures !Holds(s, keys[i], w) {}
    hide Next, CallsOk, Holds;
    assert (keys[i], v) == s'.log[|s.log|];
    forall k, w | Holds(s', k, w) ensures (k, w) in s'.log {
      if Holds(s, k, w) { assert (k, w) in s.log; }
    }
  }

  lemma StepKeepsInv(keys: seq<string>, s: State, i: nat, v: Outcome)
    requires Inv(keys, s) && i < |keys| && Next(keys, s, i, v).Some?
    ensures Inv(keys, Next(keys, s, i, v).value)
  {
    hide Next, CallsOk, LeadersOk, HoldersOk, LogOk;
    StepKeepsMutex(keys, s, i, v);
    StepKeepsCalls(keys, s, i, v);
    StepKeepsLeaders(keys, s, i, v);
    if s.pcs[i].Leading? || s.pcs[i].Resolved? {
      WriteKeepsHolders(keys, s, i, v);
    } else {
      MoveKeepsHolders(keys, s, i, v);
    }
    StepKeepsLog(keys, s, i, v);
  }

  lemma {:induction false} AlwaysInv(keys: seq<string>, schedule: seq<(nat, Outcome)>)
    ensures Inv(keys, After(keys, schedule))
    decreases |schedule|
  {
    hide Inv, Next;
    if schedule == [] {
      InitInv(keys);
    } else {
      AlwaysInv(keys, schedule[..|schedule| - 1]);
      var s := After(keys, schedule[..|schedule| - 1]);
      var (i, v) := schedule[|schedule| - 1];
      if i < |keys| && Next(keys, s, i, v).Some? { StepKeepsInv(keys, s, i, v); }
    }
  }

  // ---- safety over every interleaving --------------------------------------------

  /** At position j of the schedule a caller of this key, about to resolve, is
      given this outcome. */
  ghost predicate ResolvesAt(keys: seq<string>, schedule: seq<(nat, Outcome)>, j: nat, k: string, v: Outcome) {
    j < |schedule| && schedule[j].0 < |keys| && keys[schedule[j].0] == k && schedule[j].1 == v &&
    After(keys, schedule[..j]).pcs[schedule[j].0].Leading?
  }

  /** The schedule lets the resolution of this key return this outcome. */
  ghost predicate Resolves(keys: seq<string>, schedule: seq<(nat, Outcome)>, k: string, v: Outcome) {
    exists j :: ResolvesAt(keys, schedule, j, k, v)
  }

  lemma ResolvesLater(keys: seq<string>, schedule: seq<(nat, Outcome)>, k: string, v: Outcome)
    requires schedule != []
    ensures Resolves(keys, schedule, k, v)
       <==> Resolves(keys, schedule[..|schedule| - 1], k, v) || ResolvesAt(keys, schedule, |schedule| - 1, k, v)
  {
    hide After;
    var pre := schedule[..|schedule| - 1];
    if j: nat :| ResolvesAt(keys, pre, j, k, v) {
      assert pre[..j] == schedule[..j] && ResolvesAt(keys, schedule, j, k, v);
    }
    if j: nat :| ResolvesAt(keys, schedule, j, k, v) && j != |schedule| - 1 {
      assert pre[..j] == schedule[..j] && ResolvesAt(keys, pre, j, k, v);
    }
  }

  /** A caller about to resolve can; only its move is logged, with its key and what it is given. */
  lemma OneMoveLogs(keys: seq<string>, s: State, i: nat, v: Outcome)
    requires Inv(keys, s) && i < |keys|
    ensures s.pcs[i].Leading? ==> Next(keys, s, i, v).Some? && Next(keys, s, i, v).value.log == s.log + [(keys[i], v)]
    ensures !s.pcs[i].Leading? && Next(keys, s, i, v).Some? ==> Next(keys, s, i, v).value.log == s.log
  {
    hide CallsOk, LeadersOk, LogOk;
    assert HasCall(s.pcs[i]) ==> HolderOk(s, s.pcs[i]);
  }

  /** The log holds exactly what the schedule gave to the callers that resolved. */
  lemma {:induction false} LogIsResolutions(keys: seq<string>, schedule: seq<(nat, Outcome)>, k: string, v: Outcome)
    ensures (k, v) in After(keys, schedule).log <==> Resolves(keys, schedule, k, v)
    decreases |schedule|
  {
    hide Inv, Next, Resolves, ResolvesAt;
    if schedule == [] {
      assert !Resolves(keys, [], k, v) by { NothingResolved(keys, k, v); }
    } else {
      var pre := schedule[..|schedule| - 1];
      var (i, w) := schedule[|schedule| - 1];
      LogIsResolutions(keys, pre, k, v);
      ResolvesLater(keys, schedule, k, v);
      AlwaysInv(keys, pre);
      LastResolves(keys, schedule, k, v);
      if i < |keys| { OneMoveLogs(keys, After(keys, pre), i, w); }
    }
  }

  lemma NothingResolved(keys: seq<string>, k: string, v: Outcome)
    ensures !Resolves(keys, [], k, v)
  {
  }

  lemma LastResolves(keys: seq<string>, schedule: seq<(nat, Outcome)>, k: string, v: Outcome)
    requires schedule != []
    ensures var (i, w) := schedule[|schedule| - 1];
      ResolvesAt(keys, schedule, |schedule| - 1, k, v)
      <==> i < |keys| && keys[i] == k && w == v && After(keys, schedule[..|schedule| - 1]).pcs[i].Leading?
  {
    hide After;
  }

  /** Under every schedule: a key is resolved with at most one outcome, and by at
      most one move; every caller that has returned got the outcome that the
      schedule gave to the one resolution of its key, so all callers of a key
      got the same; and no caller is past the channel before it is closed and
      the result written. */
  lemma SingleFlightSafe(keys: seq<string>, schedule: seq<(nat, Outcome)>)
    ensures forall i, j, k, v, w ::
      ResolvesAt(keys, schedule, i, k, v) && ResolvesAt(keys, schedule, j, k, w) ==> i == j
    ensures var s := After(keys, schedule);
      && (forall i :: 0 <= i < |keys| && s.pcs[i].Returned? ==>
            s.pcs[i].res.Some? && Resolves(keys, schedule, keys[i], s.pcs[i].res.value))
      && (forall i, j :: 0 <= i < |keys| && 0 <= j < |keys| && s.pcs[i].Returned? && s.pcs[j].Returned? ==>
            keys[i] == keys[j] ==> s.pcs[i].res == s.pcs[j].res)
      && (forall i :: 0 <= i < |keys| && s.pcs[i].Finishing? ==>
            s.pcs[i].c < |s.calls| && s.calls[s.pcs[i].c].done && s.calls[s.pcs[i].c].res.Some?)
  {
    hide After, ResolvesAt, Resolves;
    AlwaysInv(keys, schedule);
    var s := After(keys, schedule);
    forall i | 0 <= i < |keys| && s.pcs[i].Returned?
      ensures s.pcs[i].res.Some? && Resolves(keys, schedule, keys[i], s.pcs[i].res.value)
    {
      assert HolderOk(s, s.pcs[i]);
      assert Holds(s, keys[i], s.pcs[i].res.value);
      LogIsResolutions(keys, schedule, keys[i], s.pcs[i].res.value);
    }
    forall i, j, k, v, w | ResolvesAt(keys, schedule, i, k, v) && ResolvesAt(keys, schedule, j, k, w) ensures i == j {
      if i < j { ResolvedOnce(keys, schedule, i, j, k, v, w); }
      if j < i { ResolvedOnce(keys, schedule, j, i, k, w, v); }
    }
  }

  /** A second resolution of a key would repeat it in the log. */
  lemma ResolvedOnce(keys: seq<string>, schedule: seq<(nat, Outcome)>, i: nat, j: nat, k: string, v: Outcome,
                     w: Outcome)
    requires i < j && ResolvesAt(keys, schedule, i, k, v)
    ensures !ResolvesAt(keys, schedule, j, k, w)
  {
    hide After, Next;
    if ResolvesAt(keys, schedule, j, k, w) {
      var before := schedule[..j];
      assert before[..i] == schedule[..i];
      assert ResolvesAt(keys, before, i, k, v);
      LogIsResolutions(keys, before, k, v);
      var s := After(keys, before);
      AlwaysInv(keys, before);
      OneMoveLogs(keys, s, schedule[j].0, w);
      StepKeepsInv(keys, s, schedule[j].0, w);
      LogRepeats(s, Next(keys, s, schedule[j].0, w).value, k, v, w);
    }
  }

  lemma LogRepeats(s: State, s': State, k: string, v: Outcome, w: Outcome)
    requires (k, v) in s.log && s'.log == s.log + [(k, w)]
    ensures !LogOk(s')
  {
    var m :| 0 <= m < |s.log| && s.log[m] == (k, v);
    assert s'.log[m].0 == s'.log[|s.log|].0;
  }

  /** A written result never changes, whatever happens next. */
  lemma ResultIsFinal(keys: seq<string>, s: State, i: nat, v: Outcome, c: nat)
    requires Inv(keys, s) && i < |keys| && Next(keys, s, i, v).Some? && c < |s.calls| && s.calls[c].res.Some?
    ensures var s' := Next(keys, s, i, v).value; c < |s'.calls| && s'.calls[c].res == s.calls[c].res
  {
  }

  // ---- progress --------------------------------------------------------------------

  /** While some caller is outstanding, some caller can move. */
  lemma NeverStuck(keys: seq<string>, schedule: seq<(nat, Outcome)>, v: Outcome) returns (mover: nat)
    requires exists i :: 0 <= i < |keys| && !After(keys, schedule).pcs[i].Returned?
    ensures mover < |keys| && Next(keys, After(keys, schedule), mover, v).Some?
  {
    AlwaysInv(keys, schedule);
    var s := After(keys, schedule);
    var i :| 0 <= i < |keys| && !s.pcs[i].Returned?;
    if s.mu.Some? {
      mover := s.mu.value;
    } else if s.pcs[i].Waiting? && !s.calls[s.pcs[i].c].done {
      assert Led(s, s.pcs[i].c);
      mover :| Owns(s, mover, s.pcs[i].c);
    } else {
      mover := i;
    }
  }

  /** How many moves a caller still has to make. */
  function Left(p: Pc): nat {
    match p
    case Arriving => 6
    case InLock => 5
    case Found(_, _) => 4
    case Leading(_) => 3
    case Resolved(_) => 2
    case Waiting(_) => 2
    case Finishing(_, _) => 1
    case Returned(_, _, _) => 0
  }

  function TotalLeft(pcs: seq<Pc>): nat {
    if pcs == [] then 0 else Left(pcs[0]) + TotalLeft(pcs[1..])
  }

  lemma {:induction false} TotalLeftUpdate(pcs: seq<Pc>, i: nat, p: Pc)
    requires i < |pcs|
    ensures TotalLeft(pcs[i := p]) == TotalLeft(pcs) - Left(pcs[i]) + Left(p)
  {
    if i > 0 {
      TotalLeftUpdate(pcs[1..], i - 1, p);
      assert pcs[i := p][1..] == pcs[1..][i - 1 := p];
    } else {
      assert pcs[i := p][1..] == pcs[1..];
    }
  }

  /** Every move uses up one of at most six per caller, so no run goes on for
      ever; with NeverStuck, every fair run ends with all callers returned. */
  lemma EveryMoveCounts(keys: seq<string>, s: State, i: nat, v: Outcome)
    requires Inv(keys, s) && i < |keys| && Next(keys, s, i, v).Some?
    ensures TotalLeft(Next(keys, s, i, v).value.pcs) < TotalLeft(s.pcs) <= 6 * |keys|
  {
    hide CallsOk, HoldersOk, LeadersOk, LogOk, TotalLeft;
    var s' := Next(keys, s, i, v).value;
    assert s'.pcs == s.pcs[i := s'.pcs[i]];
    TotalLeftUpdate(s.pcs, i, s'.pcs[i]);
    TotalLeftBound(s.pcs);
  }

  lemma {:induction false} TotalLeftBound(pcs: seq<Pc>)
    ensures TotalLeft(pcs) <= 6 * |pcs|
  {
    if pcs != [] { TotalLeftBound(pcs[1..]); }
  }

  /** From any reachable state, moving whoever can move brings every caller back. */
  lemma {:induction false} EveryoneReturns(keys: seq<string>, schedule: seq<(nat, Outcome)>, v: Outcome)
    returns (full: seq<(nat, Outcome)>)
    ensures schedule <= full && |full| <= |schedule| + TotalLeft(After(keys, schedule).pcs)
    ensures forall i :: 0 <= i < |keys| ==> After(keys, full).pcs[i].Returned?
    decreases TotalLeft(After(keys, schedule).pcs)
  {
    hide Inv, Next, TotalLeft;
    if i :| 0 <= i < |keys| && !After(keys, schedule).pcs[i].Returned? {
      var m := NeverStuck(keys, schedule, v);
      var longer := schedule + [(m, v)];
      AlwaysInv(keys, schedule);
      assert longer[..|longer| - 1] == schedule;
      EveryMoveCounts(keys, After(keys, schedule), m, v);
      full := EveryoneReturns(keys, longer, v);
    } else {
      full := schedule;
    }
  }
}
