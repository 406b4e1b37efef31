/** The device's throttle for rejecting unknown sessions: at most one reject per session in any five
    seconds, with a map that is swept when it grows (internal/device/device.go). */
module Throttle {
  /** Five seconds, in nanoseconds. */
  const WINDOW := 5_000_000_000
  const MAX_ENTRIES := 256

  /** One message for an unknown session, with the clock as read by the throttle test, when the
      reject is recorded, and by the sweep. */
  datatype Request = Request(id: string, checked: int, recorded: int, swept: int)

  type Log = map<string, int>

  predicate Suppressed(m: Log, r: Request) {
    r.id in m && r.checked - m[r.id] < WINDOW
  }

  /** Entries older than the window are dropped, once there are too many. */
  function Swept(m: Log, now: int): Log {
    if |m| <= MAX_ENTRIES then m else map id | id in m && now - m[id] <= WINDOW :: m[id]
  }

  function After(m: Log, r: Request): Log {
    if Suppressed(m, r) then m else Swept(m[r.id := r.recorded], r.swept)
  }

  /** The same throttle with a map that is never swept. */
  function AfterUnswept(m: Log, r: Request): Log {
    if Suppressed(m, r) then m else m[r.id := r.recorded]
  }

  /** For each request, whether a reject is published. */
  function Rejects(m: Log, rs: seq<Request>): (published: seq<bool>)
    ensures |published| == |rs|
    decreases rs
  {
    if rs == [] then [] else [!Suppressed(m, rs[0])] + Rejects(After(m, rs[0]), rs[1..])
  }

  function RejectsUnswept(m: Log, rs: seq<Request>): (published: seq<bool>)
    ensures |published| == |rs|
    decreases rs
  {
    if rs == [] then [] else [!Suppressed(m, rs[0])] + RejectsUnswept(AfterUnswept(m, rs[0]), rs[1..])
  }

  /** The clock never runs backwards. */
  ghost predicate Monotone(now: int, rs: seq<Request>)
    decreases rs
  {
    rs == [] ||
    (now <= rs[0].checked <= rs[0].recorded <= rs[0].swept && Monotone(rs[0].swept, rs[1..]))
  }

  /** The swept map has the same entries, except some that are too old to suppress anything. */
  ghost predicate Refines(m: Log, full: Log, now: int) {
    && m.Keys <= full.Keys
    && (forall id <- m :: m[id] == full[id])
    && (forall id <- full :: id in m || now - full[id] > WINDOW)
  }

  lemma StepRefines(m: Log, full: Log, now: int, r: Request)
    requires Refines(m, full, now) && now <= r.checked <= r.recorded <= r.swept
    ensures Suppressed(m, r) <==> Suppressed(full, r)
    ensures Refines(After(m, r), AfterUnswept(full, r), r.swept)
  {
    if r.id in full && r.id !in m {
      assert now - full[r.id] > WINDOW;
    }
  }

  lemma {:induction false} SweepingUnseenFrom(m: Log, full: Log, now: int, rs: seq<Request>)
    requires Refines(m, full, now) && Monotone(now, rs)
    ensures Rejects(m, rs) == RejectsUnswept(full, rs)
    decreases rs
  {
    if rs != [] {
      StepRefines(m, full, now, rs[0]);
      SweepingUnseenFrom(After(m, rs[0]), AfterUnswept(full, rs[0]), rs[0].swept, rs[1..]);
    }
  }

  /** Sweeping never changes which rejects are published. */
  lemma SweepingUnseen(now: int, rs: seq<Request>)
    requires Monotone(now, rs)
    ensures Rejects(map[], rs) == RejectsUnswept(map[], rs)
  {
    SweepingUnseenFrom(map[], map[], now, rs);
  }

  /** Once recorded, an id is suppressed until the window has passed. */
  lemma {:induction false} QuietAfterRecord(full: Log, now: int, rs: seq<Request>, id: string, j: nat)
    requires Monotone(now, rs) && id in full && j < |rs| && rs[j].id == id
    requires RejectsUnswept(full, rs)[j]
    ensures rs[j].checked - full[id] >= WINDOW
    decreases rs
  {
    if j > 0 {
      var full' := AfterUnswept(full, rs[0]);
      QuietAfterRecord(full', rs[0].swept, rs[1..], id, j - 1);
    }
  }

  lemma {:induction false} RejectsApartFrom(full: Log, now: int, rs: seq<Request>, i: nat, j: nat)
    requires Monotone(now, rs) && i < j < |rs| && rs[i].id == rs[j].id
    requires RejectsUnswept(full, rs)[i] && RejectsUnswept(full, rs)[j]
    ensures rs[j].checked - rs[i].recorded >= WINDOW
    decreases rs
  {
    var full' := AfterUnswept(full, rs[0]);
    if i > 0 {
      RejectsApartFrom(full', rs[0].swept, rs[1..], i - 1, j - 1);
    } else {
      QuietAfterRecord(full', rs[0].swept, rs[1..], rs[0].id, j - 1);
    }
  }

  /** Which rejects are published, when the map holds `full` before: those without a reject of the same
      session, recorded there or earlier in the run, within the window. */
  lemma {:induction false} RejectsExactlyFrom(full: Log, now: int, rs: seq<Request>, j: nat)
    requires Monotone(now, rs) && j < |rs| && forall id <- full :: full[id] <= now
    ensures RejectsUnswept(full, rs)[j] <==>
            && (rs[j].id in full ==> rs[j].checked - full[rs[j].id] >= WINDOW)
            && (forall i :: 0 <= i < j && rs[i].id == rs[j].id && RejectsUnswept(full, rs)[i] ==>
                  rs[j].checked - rs[i].recorded >= WINDOW)
    decreases rs
  {
    if j > 0 {
      var full' := AfterUnswept(full, rs[0]);
      var all, later := RejectsUnswept(full, rs), RejectsUnswept(full', rs[1..]);
      RejectsExactlyFrom(full', rs[0].swept, rs[1..], j - 1);
      assert forall i :: 0 < i < |rs| ==> all[i] == later[i - 1] && rs[i] == rs[1..][i - 1];
      assert forall i :: 0 <= i < |rs| - 1 ==> all[i + 1] == later[i] && rs[i + 1] == rs[1..][i];
    }
  }

  /** A message for an unknown session is answered with a reject if and only if none was recorded for the
      same session, earlier in the run, within the last five seconds. */
  lemma RejectsExactly(now: int, rs: seq<Request>, j: nat)
    requires Monotone(now, rs) && j < |rs|
    ensures Rejects(map[], rs)[j] <==>
            !exists i :: 0 <= i < j && rs[i].id == rs[j].id && Rejects(map[], rs)[i]
                         && rs[j].checked - rs[i].recorded < 5_000_000_000
  {
    SweepingUnseen(now, rs);
    RejectsExactlyFrom(map[], now, rs, j);
  }

  /** The first message of every unknown session is answered. */
  lemma FirstIsRejected(now: int, rs: seq<Request>, j: nat)
    requires Monotone(now, rs) && j < |rs| && forall i :: 0 <= i < j ==> rs[i].id != rs[j].id
    ensures Rejects(map[], rs)[j]
  {
    RejectsExactly(now, rs, j);
  }

  /** Two rejects published for one session are at least the window apart. */
  lemma RejectsApart(now: int, rs: seq<Request>, i: nat, j: nat)
    requires Monotone(now, rs) && i < j < |rs| && rs[i].id == rs[j].id
    requires Rejects(map[], rs)[i] && Rejects(map[], rs)[j]
    ensures rs[j].checked - rs[i].recorded >= WINDOW
  {
    SweepingUnseen(now, rs);
    RejectsApartFrom(map[], now, rs, i, j);
  }

  /** After a recorded reject the map is small, or holds nothing older than the window. */
  lemma MapBounded(m: Log, r: Request)
    requires !Suppressed(m, r)
    ensures |After(m, r)| <= 256 || forall id <- After(m, r) :: r.swept - After(m, r)[id] <= 5_000_000_000
  {
  }
}

/** The device's handlers for control and data messages (internal/device/device.go). */
module Device {
  import opened Bytes
  import opened Frames
  import opened Sessions
  import Credit
  import Reorder
  import Throttle
  import Topics

  datatype Message = CloseMessage(id: string, error: string) | OpenAck(id: string, success: bool)

  /** What the handler finds out while opening: an unsupported mode, a failed dial, or a session that
      starts or fails to start. */
  datatype OpenAttempt = Unsupported | DialFailed | Opened(mode: Mode, starts: bool)

  class Device {
    const manager: SessionManager
    var lastRejectedAt: map<string, int>
    /** Control messages published by the handlers themselves. */
    var published: seq<Message>

    constructor (manager: SessionManager)
      ensures this.manager == manager && lastRejectedAt == map[] && published == []
    {
      this.manager := manager;
      lastRejectedAt, published := map[], [];
    }

    /** Deletes entries older than the window when there are more than 256. */
    method GcRejectMapLocked(now: int)
      modifies this`lastRejectedAt
      ensures lastRejectedAt == Throttle.Swept(old(lastRejectedAt), now)
      ensures forall id :: id in lastRejectedAt <==>
                id in old(lastRejectedAt) && (|old(lastRejectedAt)| <= 256 || now - old(lastRejectedAt)[id] <= 5_000_000_000)
      ensures forall id <- lastRejectedAt :: lastRejectedAt[id] == old(lastRejectedAt)[id]
    {
      if |lastRejectedAt| <= Throttle.MAX_ENTRIES {
        return;
      }
      var left := lastRejectedAt.Keys;
      while left != {}
        invariant left <= lastRejectedAt.Keys <= old(lastRejectedAt).Keys
        invariant forall id <- lastRejectedAt :: lastRejectedAt[id] == old(lastRejectedAt)[id]
        invariant forall id <- old(lastRejectedAt) ::
                    id in lastRejectedAt <==> id in left || now - old(lastRejectedAt)[id] <= Throttle.WINDOW
        decreases |left|
      {
        var id :| id in left;
        left := left - {id};
        if now - lastRejectedAt[id] > Throttle.WINDOW {
          lastRejectedAt := lastRejectedAt - {id};
        }
      }
    }

    method SendUnknownSessionReject(r: Throttle.Request)
      modifies this`lastRejectedAt, this`published
      ensures lastRejectedAt == Throttle.After(old(lastRejectedAt), r)
      ensures published == old(published) +
                if r.id in old(lastRejectedAt) && r.checked - old(lastRejectedAt)[r.id] < 5_000_000_000 then []
                else [CloseMessage(r.id, "unknown session")]
    {
      if r.id in lastRejectedAt && r.checked - lastRejectedAt[r.id] < Throttle.WINDOW {
        return;
      }
      lastRejectedAt := lastRejectedAt[r.id := r.recorded];
      GcRejectMapLocked(r.swept);
      published := published + [CloseMessage(r.id, "unknown session")];
    }

    /** An ack renews the session and, unless it is an exec session, credits its window; for an
        unknown session the client is told so. */
    method HandleAck(r: Throttle.Request, ack: uint64, now: int)
      requires manager.Valid()
      modifies this`lastRejectedAt, this`published, manager`lastSeen
      modifies (set s <- manager.sessions.Values :: s.fc)`ackedBytes, (set s <- manager.sessions.Values :: s.fc)`blockedNotify
      ensures manager.Valid()
      ensures r.id !in manager.sessions ==>
                && lastRejectedAt == Throttle.After(old(lastRejectedAt), r)
                && published == old(published) +
                     (if Throttle.Suppressed(old(lastRejectedAt), r) then [] else [CloseMessage(r.id, "unknown session")])
                && manager.lastSeen == old(manager.lastSeen)
                && forall s <- manager.sessions.Values :: unchanged(s.fc)
      ensures r.id in manager.sessions ==>
                var s := manager.sessions[r.id];
                && manager.lastSeen == old(manager.lastSeen)[r.id := now]
                && (s.mode in {Tcp, Shell, ExecClient} ==>
                      s.fc.ackedBytes == Credit.AfterAck(s.fc.sentBytes, old(s.fc.ackedBytes), ack) && s.fc.blockedNotify)
                && (s.mode == Exec ==> unchanged(s.fc))
                && (forall other <- manager.sessions.Values :: other.fc == s.fc || unchanged(other.fc))
                && unchanged(this)
    {
      var found := manager.Get(r.id);
      if found.None? {
        SendUnknownSessionReject(r);
        return;
      }
      manager.Touch(r.id, now);
      var s := found.value;
      assert s in manager.sessions.Values;
      if s.TakesAcks() {
        s.fc.UpdateAck(ack);
      }
    }

    /** A data message for a known session is decoded and inserted into its buffer, which another
        goroutine may close during the offer `closeAt`; one for an unknown session is answered with a
        throttled reject; a bad topic or a short frame is dropped. */
    method HandleData(topic: string, payload: bytes, clock: Throttle.Request, now: int, closeAt: Option<nat>)
      requires manager.Valid() && forall s <- manager.sessions.Values :: s.reorder.Valid()
      modifies this`lastRejectedAt, this`published, manager`lastSeen, set s <- manager.sessions.Values :: s.reorder
      ensures manager.Valid() && manager.sessions == old(manager.sessions)
      ensures !Topics.ParseTopic(topic).Parsed? ==>
                unchanged(this) && unchanged(manager) && forall s <- manager.sessions.Values :: unchanged(s.reorder)
      ensures Topics.ParseTopic(topic).Parsed? ==>
                var id := Topics.ParseTopic(topic).topic.session;
                && (id !in manager.sessions ==>
                      && lastRejectedAt == Throttle.After(old(lastRejectedAt), clock.(id := id))
                      && published == old(published) +
                           (if Throttle.Suppressed(old(lastRejectedAt), clock.(id := id)) then []
                            else [CloseMessage(id, "unknown session")])
                      && unchanged(manager)
                      && forall s <- manager.sessions.Values :: unchanged(s.reorder))
                && (id in manager.sessions ==>
                      var reorder := manager.sessions[id].reorder;
                      && unchanged(this)
                      && manager.lastSeen == old(manager.lastSeen)[id := now]
                      && (forall s <- manager.sessions.Values :: s.reorder == reorder || unchanged(s.reorder))
                      && (Decode(payload).TooShort? ==> unchanged(reorder))
                      && (Decode(payload).Decoded? ==> reorder.Inserted(Decode(payload).number, Decode(payload).payload, closeAt)))
    {
      var parsed := Topics.ParseTopic(topic);
      if !parsed.Parsed? {
        return;
      }
      var id := parsed.topic.session;
      var found := manager.Get(id);
      if found.None? {
        SendUnknownSessionReject(clock.(id := id));
        return;
      }
      manager.Touch(id, now);
      var s := found.value;
      assert s in manager.sessions.Values;
      match Decode(payload)
      case TooShort =>
      case Decoded(n, data) =>
        var full := s.reorder.Insert(n, data, closeAt);
    }

    /** A close for a known session closes it and takes it out of the table; one for an unknown
        session does nothing, and in particular sends nothing. */
    method HandleClose(id: string)
      requires manager.Valid() && forall s <- manager.sessions.Values :: s.Once()
      modifies manager, manager.sessions.Values, set s <- manager.sessions.Values :: s.reorder`closed
      ensures manager.Valid()
      ensures manager.sessions == old(manager.sessions) - {id} && manager.lastSeen == old(manager.lastSeen) - {id}
      ensures id in old(manager.sessions) ==>
                var s := old(manager.sessions)[id];
                && s.closed && s.Once() && s.reorder.closed == (old(s.reorder.closed) || !old(s.closed))
                && forall other <- old(manager.sessions).Values :: other == s || unchanged(other)
      ensures id !in old(manager.sessions) ==>
                unchanged(manager) && forall s <- old(manager.sessions).Values :: unchanged(s) && unchanged(s.reorder)
    {
      var found := manager.Get(id);
      if found.None? {
        assert manager.sessions - {id} == manager.sessions && manager.lastSeen - {id} == manager.lastSeen;
        return;
      }
      var s := found.value;
      assert s in manager.sessions.Values;
      s.Close(manager);
      manager.Remove(id);
    }

    static method NewSession(id: string, mode: Mode) returns (s: Session)
      ensures fresh(s) && s.id == id && s.mode == mode && !s.hooked && !s.closed && s.Once()
      ensures fresh(s.reorder) && s.reorder.Valid() && !s.reorder.closed && s.reorder.size == REORDER_SIZE
      ensures fresh(s.fc) && s.fc.windowSize == WINDOW
    {
      var fc := new Credit.FlowControl(WINDOW);
      var reorder := new Reorder.ReorderBuffer(REORDER_SIZE);
      s := new Session(id, mode, reorder, fc);
    }

    /** Opens a session: it is in the table afterwards exactly when the client is told of success. One
        that is created but refused by the table, or fails to start, is dropped without being closed. */
    method HandleOpen(id: string, attempt: OpenAttempt, now: int) returns (ghost created: Option<Session>)
      requires manager.Valid()
      modifies this`published, manager
      ensures manager.Valid()
      ensures var ok := attempt.Opened? && attempt.starts && id !in old(manager.sessions);
              && published == old(published) + [OpenAck(id, ok)]
              && (ok ==>
                    && id in manager.sessions && fresh(manager.sessions[id])
                    && manager.sessions == old(manager.sessions)[id := manager.sessions[id]]
                    && manager.lastSeen == old(manager.lastSeen)[id := now]
                    && manager.sessions[id].hooked && !manager.sessions[id].closed && manager.sessions[id].Once()
                    && manager.sessions[id].mode == attempt.mode
                    && manager.sessions[id].reorder.size == 64
                    && manager.sessions[id].fc.windowSize == 256 * 1024)
              && (!ok ==> manager.sessions == old(manager.sessions) && manager.lastSeen == old(manager.lastSeen))
      ensures created.Some? <==> attempt.Opened?
      ensures created.Some? ==>
                var s := created.value;
                && fresh(s) && s.id == id && !s.closed && fresh(s.reorder) && !s.reorder.closed
                && (s in manager.sessions.Values <==> attempt.starts && id !in old(manager.sessions))
    {
      created := None;
      if !attempt.Opened? {
        published := published + [OpenAck(id, false)];
        return;
      }
      var s := NewSession(id, attempt.mode);
      created := Some(s);
      assert s !in manager.sessions.Values;
      var added := manager.Add(s, now);
      if !added {
        published := published + [OpenAck(id, false)];
        return;
      }
      s.SetOnClose();
      if !attempt.starts {
        manager.Remove(id);
        assert id !in old(manager.lastSeen);
        assert manager.sessions == old(manager.sessions) && manager.lastSeen == old(manager.lastSeen);
        published := published + [OpenAck(id, false)];
        return;
      }
      published := published + [OpenAck(id, true)];
    }
  }
}
