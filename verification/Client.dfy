/** The client's keepalive and the routing of control messages (internal/client/client.go). */
module Client {
  import opened Bytes
  import opened Sessions
  import Credit

  const MAX_MISSES := 3

  /** Ping `k` is the third miss in a row. */
  predicate ThirdMiss(answered: seq<bool>, k: nat) {
    2 <= k < |answered| && !answered[k] && !answered[k - 1] && !answered[k - 2]
  }

  /** Runs the keepalive over the pings sent before the context ends; `answered` says which of them
      got a pong in time. It closes the session at the first ping that is the third miss in a row,
      and only then. */
  method RunSessionKeepalive(answered: seq<bool>) returns (closedAt: Option<nat>)
    ensures closedAt.Some? ==> ThirdMiss(answered, closedAt.value) && forall k :: 0 <= k < closedAt.value ==> !ThirdMiss(answered, k)
    ensures closedAt.None? ==> forall k :: 0 <= k < |answered| ==> !ThirdMiss(answered, k)
  {
    var misses := 0;
    for i := 0 to |answered|
      invariant 0 <= misses < MAX_MISSES && misses <= i
      invariant forall j :: i - misses <= j < i ==> !answered[j]
      invariant misses < i ==> answered[i - misses - 1]
      invariant forall k :: 0 <= k < i ==> !ThirdMiss(answered, k)
    {
      if !answered[i] {
        misses := misses + 1;
        if misses >= MAX_MISSES {
          return Some(i);
        }
      } else {
        misses := 0;
      }
    }
    return None;
  }

  datatype Control =
    | OpenAck(id: string, success: bool, error: string)
    | Pong(id: string)
    | CloseMsg(id: string, error: string)
    | AckMsg(id: string, bytes: uint64)
    | OtherMsg

  /** A reply channel holds at most one message; a message that finds it full is dropped. */
  class Client {
    const manager: SessionManager
    var ackChans: map<string, seq<Control>>
    var closeChs: map<string, seq<Control>>

    ghost predicate Valid()
      reads this
    {
      && (forall id <- ackChans :: |ackChans[id]| <= 1)
      && (forall id <- closeChs :: |closeChs[id]| <= 1)
    }

    constructor (manager: SessionManager)
      ensures this.manager == manager && Valid() && ackChans == map[] && closeChs == map[]
    {
      this.manager := manager;
      ackChans, closeChs := map[], map[];
    }

    method RegisterCloseCh(id: string)
      requires Valid()
      modifies this`closeChs
      ensures Valid() && closeChs == old(closeChs)[id := []]
    {
      closeChs := closeChs[id := []];
    }

    method UnregisterCloseCh(id: string)
      requires Valid()
      modifies this`closeChs
      ensures Valid() && closeChs == old(closeChs) - {id}
    {
      closeChs := closeChs - {id};
    }

    /** A close goes to the caller waiting for it, who then closes the session itself; if nobody waits,
        the session is closed and removed here. Nothing is ever sent back for an unknown session. */
    method HandleClose(m: Control)
      requires m.CloseMsg? && Valid() && manager.Valid() && forall s <- manager.sessions.Values :: s.Once()
      modifies this`closeChs, manager, manager.sessions.Values, set s <- manager.sessions.Values :: s.reorder`closed
      ensures Valid() && manager.Valid()
      ensures m.id in old(closeChs) ==>
                && closeChs.Keys == old(closeChs).Keys
                && closeChs[m.id] == (if old(closeChs)[m.id] == [] then [m] else old(closeChs)[m.id])
                && (forall id <- closeChs :: id != m.id ==> closeChs[id] == old(closeChs)[id])
                && unchanged(manager) && forall s <- old(manager.sessions).Values :: unchanged(s)
      ensures m.id !in old(closeChs) ==>
                && closeChs == old(closeChs)
                && manager.sessions == old(manager.sessions) - {m.id}
                && manager.lastSeen == old(manager.lastSeen) - {m.id}
                && (forall s <- old(manager.sessions).Values :: s.id != m.id ==> unchanged(s))
                && (m.id in old(manager.sessions) ==>
                      old(manager.sessions)[m.id].closed && old(manager.sessions)[m.id].Once())
    {
      if m.id in closeChs {
        if closeChs[m.id] == [] {
          closeChs := closeChs[m.id := [m]];
        }
        return;
      }
      var found := manager.Get(m.id);
      if found.None? {
        assert manager.sessions - {m.id} == manager.sessions && manager.lastSeen - {m.id} == manager.lastSeen;
        return;
      }
      assert found.value in manager.sessions.Values;
      found.value.Close(manager);
      manager.Remove(m.id);
    }

    /** An open_ack or pong goes to whoever waits under its id, and to nobody else. */
    method HandleReply(m: Control)
      requires (m.OpenAck? || m.Pong?) && Valid()
      modifies this`ackChans
      ensures Valid()
      ensures ackChans.Keys == old(ackChans).Keys
      ensures m.id in ackChans ==> ackChans[m.id] == if old(ackChans)[m.id] == [] then [m] else old(ackChans)[m.id]
      ensures forall id <- ackChans :: id != m.id ==> ackChans[id] == old(ackChans)[id]
    {
      if m.id in ackChans && ackChans[m.id] == [] {
        ackChans := ackChans[m.id := [m]];
      }
    }

    /** An ack credits the window of a known session; for an unknown one it is dropped. */
    method HandleAck(m: Control, now: int)
      requires m.AckMsg? && manager.Valid()
      modifies manager`lastSeen
      modifies (set s <- manager.sessions.Values :: s.fc)`ackedBytes, (set s <- manager.sessions.Values :: s.fc)`blockedNotify
      ensures manager.Valid()
      ensures m.id !in manager.sessions ==>
                manager.lastSeen == old(manager.lastSeen) && forall s <- manager.sessions.Values :: unchanged(s.fc)
      ensures m.id in manager.sessions ==>
                var s := manager.sessions[m.id];
                && manager.lastSeen == old(manager.lastSeen)[m.id := now]
                && (s.mode in {Tcp, Shell, ExecClient} ==>
                      s.fc.ackedBytes == Credit.AfterAck(s.fc.sentBytes, old(s.fc.ackedBytes), m.bytes) && s.fc.blockedNotify)
                && (s.mode == Exec ==> unchanged(s.fc))
                && forall other <- manager.sessions.Values :: other.fc == s.fc || unchanged(other.fc)
    {
      var found := manager.Get(m.id);
      if found.None? {
        return;
      }
      manager.Touch(m.id, now);
      var s := found.value;
      assert s in manager.sessions.Values;
      if s.TakesAcks() {
        s.fc.UpdateAck(m.bytes);
      }
    }
  }
}
