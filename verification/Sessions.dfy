/** Sessions and the table that holds them (`SessionManager` in internal/tunnel/session.go, and the
    once-only `Close` of the session kinds). */
module Sessions {
  import opened Bytes
  import opened Credit
  import opened Reorder

  /** The kinds of session; `ExecClient` is the client's end of an exec or shell session. */
  datatype Mode = Tcp | Shell | Exec | ExecClient

  class Session {
    const id: string
    const mode: Mode
    const reorder: ReorderBuffer
    const fc: FlowControl
    /** Whether a close hook has been installed; every hook removes the id from the table. */
    var hooked: bool
    var closed: bool
    /** Close messages published by `Close` itself. */
    var closeMsgs: nat

    /** `Close` has published at most one message, and only for TCP. */
    ghost predicate Once()
      reads this
    {
      closeMsgs == if closed && mode.Tcp? then 1 else 0
    }

    constructor (id: string, mode: Mode, reorder: ReorderBuffer, fc: FlowControl)
      ensures this.id == id && this.mode == mode && this.reorder == reorder && this.fc == fc
      ensures Once() && !closed && !hooked
    {
      this.id, this.mode, this.reorder, this.fc := id, mode, reorder, fc;
      hooked, closed, closeMsgs := false, false, 0;
    }

    method SetOnClose()
      modifies this`hooked
      ensures hooked
    {
      hooked := true;
    }

    /** Runs its body once: closes the buffer, tells the peer (TCP), and calls the hook, which
        re-enters the table. */
    method Close(table: SessionManager)
      requires table.Valid()
      modifies this`closed, this`closeMsgs, reorder`closed, table
      ensures closed && table.Valid()
      ensures old(Once()) ==> Once()
      ensures closeMsgs == old(closeMsgs) + if !old(closed) && mode.Tcp? then 1 else 0
      ensures reorder.closed == (old(reorder.closed) || !old(closed))
      ensures table.sessions == old(table.sessions) - if hooked && !old(closed) then {id} else {}
      ensures table.lastSeen == old(table.lastSeen) - if hooked && !old(closed) then {id} else {}
    {
      if !closed {
        closed := true;
        reorder.Close();
        if mode.Tcp? {
          closeMsgs := closeMsgs + 1;
        }
        if hooked {
          table.Remove(id);
        }
      }
    }

    /** Only these kinds pass acks on to their window; the device's exec session does not. */
    predicate TakesAcks() {
      !mode.Exec?
    }
  }

  class SessionManager {
    var sessions: map<string, Session>
    var lastSeen: map<string, int>

    /** The two maps agree, and every session is filed under its own id. */
    ghost predicate Valid()
      reads this
    {
      sessions.Keys == lastSeen.Keys && forall id <- sessions :: sessions[id].id == id
    }

    constructor ()
      ensures Valid() && sessions == map[]
    {
      sessions, lastSeen := map[], map[];
    }

    method Add(s: Session, now: int) returns (ok: bool)
      requires Valid()
      modifies this
      ensures Valid()
      ensures ok <==> s.id !in old(sessions)
      ensures ok ==> sessions == old(sessions)[s.id := s] && lastSeen == old(lastSeen)[s.id := now]
      ensures !ok ==> unchanged(this)
    {
      if s.id in sessions {
        return false;
      }
      sessions := sessions[s.id := s];
      lastSeen := lastSeen[s.id := now];
      return true;
    }

    method Get(id: string) returns (s: Option<Session>)
      ensures s == if id in sessions then Some(sessions[id]) else None
    {
      if id !in sessions {
        return None;
      }
      return Some(sessions[id]);
    }

    method Remove(id: string)
      requires Valid()
      modifies this
      ensures Valid()
      ensures sessions == old(sessions) - {id} && lastSeen == old(lastSeen) - {id}
    {
      sessions := sessions - {id};
      lastSeen := lastSeen - {id};
    }

    /** Renews a present id; an absent one stays absent. */
    method Touch(id: string, now: int)
      requires Valid()
      modifies this`lastSeen
      ensures Valid()
      ensures lastSeen == if id in sessions then old(lastSeen)[id := now] else old(lastSeen)
    {
      if id in sessions {
        lastSeen := lastSeen[id := now];
      }
    }

    /** Closes the sessions filed in `todo`, in any order; hooks may shrink the table meanwhile. */
    method CloseEach(todo: map<string, Session>)
      requires Valid() && forall id <- todo :: todo[id].id == id && todo[id].Once()
      modifies this, todo.Values, set s <- todo.Values :: s.reorder`closed
      ensures Valid()
      ensures sessions.Keys <= old(sessions).Keys && old(sessions).Keys - todo.Keys <= sessions.Keys
      ensures forall id <- sessions :: sessions[id] == old(sessions)[id] && lastSeen[id] == old(lastSeen)[id]
      ensures forall id <- todo :: todo[id].closed && todo[id].Once()
    {
      var left := todo.Keys;
      while left != {}
        invariant Valid() && left <= todo.Keys
        invariant sessions.Keys <= old(sessions).Keys && old(sessions).Keys - todo.Keys <= sessions.Keys
        invariant forall id <- sessions :: sessions[id] == old(sessions)[id] && lastSeen[id] == old(lastSeen)[id]
        invariant forall id <- todo :: todo[id].Once()
        invariant forall id <- todo.Keys - left :: todo[id].closed
        decreases |left|
      {
        var id :| id in left;
        assert todo[id] in todo.Values;
        todo[id].Close(this);
        left := left - {id};
      }
    }

    /** Closes every session there is and leaves both maps empty. */
    method CloseAll()
      requires Valid() && forall id <- sessions :: sessions[id].Once()
      modifies this, sessions.Values, set s <- sessions.Values :: s.reorder`closed
      ensures Valid() && sessions == map[] && lastSeen == map[]
      ensures forall id <- old(sessions) :: old(sessions)[id].closed && old(sessions)[id].Once()
    {
      CloseEach(sessions);
      sessions := map[];
      lastSeen := map[];
    }

    /** The ids not seen for longer than `timeout`. */
    method StaleIds(now: int, timeout: int) returns (stale: set<string>)
      ensures forall id :: id in stale <==> id in lastSeen && now - lastSeen[id] > timeout
    {
      stale := {};
      var left := lastSeen.Keys;
      while left != {}
        invariant left <= lastSeen.Keys
        invariant forall id :: id in stale <==> id in lastSeen.Keys - left && now - lastSeen[id] > timeout
        decreases |left|
      {
        var id :| id in left;
        if now - lastSeen[id] > timeout {
          stale := stale + {id};
        }
        left := left - {id};
      }
    }

    /** The locked part of the cleanup: takes the stale sessions out of the table. */
    method TakeStale(now: int, timeout: int) returns (stale: map<string, Session>)
      requires Valid()
      modifies this
      ensures Valid()
      ensures forall id :: id in stale <==> id in old(lastSeen) && now - old(lastSeen)[id] > timeout
      ensures forall id <- stale :: stale[id] == old(sessions)[id] && stale[id] in old(sessions).Values
      ensures sessions == old(sessions) - stale.Keys && lastSeen == old(lastSeen) - stale.Keys
    {
      var ids := StaleIds(now, timeout);
      stale := map id | id in ids :: sessions[id];
      assert stale.Keys == ids;
      sessions := sessions - ids;
      lastSeen := lastSeen - ids;
    }

    /** Removes and closes exactly the sessions not seen for longer than `timeout`. */
    method CleanupStale(now: int, timeout: int)
      requires Valid() && forall id <- sessions :: sessions[id].Once()
      modifies this, sessions.Values, set s <- sessions.Values :: s.reorder`closed
      ensures Valid()
      ensures forall id :: id in sessions <==> id in old(lastSeen) && now - old(lastSeen)[id] <= timeout
      ensures forall id <- sessions :: sessions[id] == old(sessions)[id] && lastSeen[id] == old(lastSeen)[id]
      ensures forall id <- old(sessions) | id !in sessions :: old(sessions)[id].closed && old(sessions)[id].Once()
      ensures forall id <- sessions :: unchanged(sessions[id])
    {
      var stale := TakeStale(now, timeout);
      CloseEach(stale);
      forall id <- old(sessions) | id !in sessions
        ensures old(sessions)[id].closed && old(sessions)[id].Once()
      {
        assert id in stale;
      }
    }
  }
}

/** The table with all its users at once. A `Close` marks the session first and takes it out of the
    table later, or never: only sessions with a hook, or closed by a handler, are taken out. Each
    `CloseAll` copies the table under the lock, closes the copied sessions without it, and empties the
    table under the lock again; several can be in progress. Ids are never reused. */
module SessionRace {
  /** A `CloseAll` in progress: the ids it still has to close, and those added since its copy. */
  datatype Call = Call(todo: set<string>, since: set<string>)

  datatype State = State(
    sessions: set<string>, lastSeen: set<string>, closed: set<string>,
    calls: map<nat, Call>,
    // taken out by `cleanupStale` and not closed yet
    swept: set<string>,
    // history: all ids ever added, and those taken out before anything closed them, by the reset at
    // the end of `CloseAll` or because opening the session failed
    added: set<string>, leaked: set<string>)

  datatype Step =
    | Add(id: string) | Touch(id: string)
    | Close(id: string) | TakeOut(id: string) | Abandon(id: string)
    | Sweep(ids: set<string>) | CloseSwept(id: string)
    | Copy(call: nat) | CloseNext(call: nat, id: string) | Reset(call: nat)

  const INITIAL := State({}, {}, {}, map[], {}, {}, {})

  predicate Enabled(s: State, step: Step) {
    match step
    case Add(id) => id !in s.added
    case Touch(id) => true
    case Close(id) => id in s.added
    case TakeOut(id) => id in s.closed
    case Abandon(id) => id in s.sessions
    case Sweep(ids) => ids <= s.lastSeen
    case CloseSwept(id) => id in s.swept
    case Copy(call) => call !in s.calls
    case CloseNext(call, id) => call in s.calls && id in s.calls[call].todo
    case Reset(call) => call in s.calls && s.calls[call].todo == {}
  }

  function Without(s: State, ids: set<string>): State {
    s.(sessions := s.sessions - ids, lastSeen := s.lastSeen - ids)
  }

  function Apply(s: State, step: Step): State
    requires Enabled(s, step)
  {
    match step
    case Add(id) =>
      s.(sessions := s.sessions + {id}, lastSeen := s.lastSeen + {id}, added := s.added + {id},
         calls := map c | c in s.calls :: s.calls[c].(since := s.calls[c].since + {id}))
    case Touch(id) => if id in s.sessions then s.(lastSeen := s.lastSeen + {id}) else s
    case Close(id) => s.(closed := s.closed + {id})
    case TakeOut(id) => Without(s, {id})
    case Abandon(id) => Without(s, {id}).(leaked := s.leaked + ({id} - s.closed))
    case Sweep(ids) => Without(s, ids).(swept := s.swept + ids)
    case CloseSwept(id) => s.(swept := s.swept - {id}, closed := s.closed + {id})
    case Copy(call) => s.(calls := s.calls[call := Call(s.sessions, {})])
    case CloseNext(call, id) =>
      s.(closed := s.closed + {id}, calls := s.calls[call := s.calls[call].(todo := s.calls[call].todo - {id})])
    case Reset(call) =>
      Without(s, s.sessions).(leaked := s.leaked + (s.sessions - s.closed), calls := s.calls - {call})
  }

  ghost predicate Run(s: State, steps: seq<Step>, t: State)
    decreases |steps|
  {
    if steps == [] then s == t
    else Enabled(s, steps[0]) && Run(Apply(s, steps[0]), steps[1..], t)
  }

  ghost predicate Reachable(s: State) {
    exists steps :: Run(INITIAL, steps, s)
  }

  /** Whatever is open in the table was copied by the call and is still to be closed, or came later. */
  ghost predicate CallInv(s: State, call: Call) {
    call.todo <= s.added && call.since <= s.added && s.sessions - s.closed <= call.todo + call.since
  }

  ghost predicate Inv(s: State) {
    && s.sessions == s.lastSeen
    && s.swept !! s.sessions && s.leaked !! s.sessions
    && s.added == s.sessions + s.closed + s.swept + s.leaked
    && forall c <- s.calls :: CallInv(s, s.calls[c])
  }

  lemma StepKeepsInv(s: State, step: Step)
    requires Inv(s) && Enabled(s, step)
    ensures Inv(Apply(s, step))
  {
    var t := Apply(s, step);
    forall c <- t.calls ensures CallInv(t, t.calls[c]) {
      if c in s.calls { assert CallInv(s, s.calls[c]); }
      forall id <- t.sessions - t.closed ensures id in t.calls[c].todo + t.calls[c].since {
        if c in s.calls && id in s.sessions { assert id in s.sessions - s.closed; }
      }
    }
  }

  lemma {:induction false} RunKeepsInv(s: State, steps: seq<Step>, t: State)
    requires Inv(s) && Run(s, steps, t)
    ensures Inv(t)
    decreases |steps|
  {
    if steps != [] {
      StepKeepsInv(s, steps[0]);
      RunKeepsInv(Apply(s, steps[0]), steps[1..], t);
    }
  }

  /** In every interleaving the two maps have the same keys, and every session ever added is in the
      table, closed, about to be closed by the sweep, or was taken out unclosed; what the sweep or a
      leak took out is never in the table again. */
  lemma TableAccounts(s: State)
    requires Reachable(s)
    ensures s.sessions == s.lastSeen
    ensures s.added == s.sessions + s.closed + s.swept + s.leaked
    ensures s.sessions !! s.swept && s.sessions !! s.leaked
  {
    var steps :| Run(INITIAL, steps, s);
    RunKeepsInv(INITIAL, steps, s);
  }

  /** The final reset of a `CloseAll` leaks exactly the sessions added since its copy that nothing else
      has closed, swept or taken out: none if and only if there are no such sessions. */
  lemma ResetLeaksExactly(s: State, call: nat)
    requires Reachable(s) && Enabled(s, Reset(call))
    ensures var t := Apply(s, Reset(call)); var since := s.calls[call].since;
            && t.leaked == s.leaked + (since - s.closed - s.swept - s.leaked)
            && (t.leaked == s.leaked <==> since <= s.closed + s.swept + s.leaked)
            && t.sessions == {} == t.lastSeen
  {
    var steps :| Run(INITIAL, steps, s);
    RunKeepsInv(INITIAL, steps, s);
    assert CallInv(s, s.calls[call]);
  }

  /** Without an `Add` between the two locked parts, `CloseAll` leaks nothing: everything is closed, in
      the hands of the sweep, or was taken out unclosed before. */
  lemma CloseAllCloses(s: State, call: nat)
    requires Reachable(s) && Enabled(s, Reset(call)) && s.calls[call].since == {}
    ensures var t := Apply(s, Reset(call));
            t.leaked == s.leaked && t.added == t.closed + t.swept + t.leaked
  {
    TableAccounts(s);
    ResetLeaksExactly(s, call);
  }

  lemma {:induction false} RunSnoc(s: State, steps: seq<Step>, t: State, step: Step)
    requires Run(s, steps, t) && Enabled(t, step)
    ensures Run(s, steps + [step], Apply(t, step))
    decreases |steps|
  {
    if steps == [] {
      assert [step][1..] == [];
      assert Run(Apply(s, step), [], Apply(t, step));
    } else {
      RunSnoc(Apply(s, steps[0]), steps[1..], t, step);
      assert (steps + [step])[1..] == steps[1..] + [step];
    }
  }

  lemma ReachStep(s: State, step: Step)
    requires Reachable(s) && Enabled(s, step)
    ensures Reachable(Apply(s, step))
  {
    var steps :| Run(INITIAL, steps, s);
    RunSnoc(INITIAL, steps, s, step);
  }

  /** An `Add` in between is dropped from the table without being closed. */
  lemma AddDuringCloseAllLeaks(id: string)
    ensures exists s :: Reachable(s) && s.leaked == {id} && id !in s.sessions && id !in s.closed
  {
    assert Run(INITIAL, [], INITIAL);
    ReachStep(INITIAL, Copy(0));
    var s1 := Apply(INITIAL, Copy(0));
    ReachStep(s1, Add(id));
    var s2 := Apply(s1, Add(id));
    ReachStep(s2, Reset(0));
    assert Apply(s2, Reset(0)).leaked == {id};
  }

  /** A closed session can still be in the table: its hook has not run yet, or it has none. */
  lemma ClosedCanBeInTable(id: string)
    ensures exists s :: Reachable(s) && id in s.sessions && id in s.closed
  {
    assert Run(INITIAL, [], INITIAL);
    ReachStep(INITIAL, Add(id));
    var s1 := Apply(INITIAL, Add(id));
    ReachStep(s1, Close(id));
    assert id in Apply(s1, Close(id)).sessions;
  }
}
