/** session_manager.c: the state of one handshake, and the root's table of sessions. */
module SessionManager {
  import opened Protocol

  /** Clock ticks per second. */
  const SECOND := 128
  const SESSION_RETRY_TIMEOUT := 120 * SECOND
  const SESSION_MAX_RETRIES := 3
  const SESSION_MAX_NODES := 10
  const INVALID_NODE_ID := 0xffff

  datatype Role = NodeRole | RootRole
  datatype Phase = Unused | Idle | WaitPk | WaitCt | WaitAck | Established | Failed

  /** The fields of session_t that the handshake reads and writes. */
  datatype Session = Session(role: Role, nodeId: NodeId, phase: Phase, established: bool, nextMsgId: Byte, ss: Bytes,
                             retryCount: nat, pendingType: Byte, pendingId: Byte, waiting: bool, deadline: int)
  {
    /** session_is_established. */
    predicate IsEstablished() { phase == Established && established }

    /** session_retry_due. */
    predicate RetryDue(now: int) { waiting && now >= deadline }

    predicate CanRetry() { retryCount < SESSION_MAX_RETRIES }

    function SetPending(msgType: Byte, msgId: Byte, now: int): Session {
      this.(pendingType := msgType, pendingId := msgId, waiting := true, deadline := now + SESSION_RETRY_TIMEOUT)
    }

    function ClearPending(): Session {
      this.(pendingType := 0, pendingId := 0, waiting := false, retryCount := 0)
    }

    function MarkRetry(now: int, extra: int): Session {
      this.(retryCount := retryCount + 1, deadline := now + SESSION_RETRY_TIMEOUT + extra)
    }

    function SetEstablished(): Session { this.(phase := Established, established := true).ClearPending() }

    function SetFailed(): Session { this.(phase := Failed, established := false).ClearPending() }

    /** The session after session_next_msg_id, which hands out nextMsgId and wraps at 256. */
    function TakeMsgId(): Session { this.(nextMsgId := (nextMsgId + 1) % 0x100) }
  }

  /** session_init: everything zero except the role and the node. */
  function Fresh(role: Role, nodeId: NodeId): Session {
    Session(role, nodeId, Idle, false, 0, [], 0, 0, 0, false, 0)
  }

  /** session_reset keeps the role and the node and forgets the rest, message ids and secrets included. */
  function Reset(s: Session): Session { Fresh(s.role, s.nodeId) }

  /**
   * What the drivers keep true of every session: phase, pending message, waiting flag and established flag
   * agree with each other and with the role, and at most three retries are counted.
   */
  predicate Coherent(s: Session) {
    && s.retryCount <= SESSION_MAX_RETRIES
    && (s.established <==> s.phase == Established)
    && (s.waiting <==> s.phase == WaitPk || s.phase == WaitCt || s.phase == WaitAck)
    && match s.phase
       case WaitPk => s.role == NodeRole && s.pendingType == MSG_GETPK
       case WaitAck => s.role == NodeRole && s.pendingType == MSG_CT
       case WaitCt => s.role == RootRole && (s.pendingType == MSG_PK || s.pendingType == MSG_CT)
       case Unused => false
       case _ => s.pendingType == 0 && s.retryCount == 0
  }

  // ---- the root's table

  class Table {
    var sessions: seq<Option<Session>>

    /** Ten entries, at most one per node. */
    ghost predicate Valid()
      reads this
    {
      && |sessions| == SESSION_MAX_NODES
      && (forall i, j :: 0 <= i < j < SESSION_MAX_NODES && sessions[i].Some? && sessions[j].Some? ==>
            sessions[i].value.nodeId != sessions[j].value.nodeId)
    }

    constructor ()
      ensures Valid() && sessions == seq(SESSION_MAX_NODES, i => None)
    {
      sessions := seq(SESSION_MAX_NODES, i => None);
    }

    method Find(nodeId: NodeId) returns (i: int)
      requires Valid()
      ensures i == -1 <==> forall j :: 0 <= j < SESSION_MAX_NODES && sessions[j].Some? ==> sessions[j].value.nodeId != nodeId
      ensures i != -1 ==> 0 <= i < SESSION_MAX_NODES && sessions[i].Some? && sessions[i].value.nodeId == nodeId
    {
      i := 0;
      while i < SESSION_MAX_NODES
        invariant 0 <= i <= SESSION_MAX_NODES
        invariant forall j :: 0 <= j < i && sessions[j].Some? ==> sessions[j].value.nodeId != nodeId
      {
        if sessions[i].Some? && sessions[i].value.nodeId == nodeId {
          return;
        }
        i := i + 1;
      }
      i := -1;
    }

    /** The session of the node; a new root session in the first free entry when there is none; -1 when the table is full. */
    method GetOrCreate(nodeId: NodeId) returns (i: int)
      requires Valid()
      modifies this
      ensures Valid()
      ensures i != -1 ==> 0 <= i < SESSION_MAX_NODES && sessions[i].Some? && sessions[i].value.nodeId == nodeId
      ensures i == -1 ==> sessions == old(sessions)
      ensures i == -1 ==> forall j :: 0 <= j < SESSION_MAX_NODES ==> sessions[j].Some? && sessions[j].value.nodeId != nodeId
      ensures i != -1 ==> sessions == old(sessions) || (old(sessions)[i].None? && sessions == old(sessions)[i := Some(Fresh(RootRole, nodeId))])
    {
      i := Find(nodeId);
      if i != -1 {
        return;
      }
      i := 0;
      while i < SESSION_MAX_NODES
        invariant 0 <= i <= SESSION_MAX_NODES && forall j :: 0 <= j < i ==> sessions[j].Some?
      {
        if sessions[i].None? {
          sessions := sessions[i := Some(Fresh(RootRole, nodeId))];
          return;
        }
        i := i + 1;
      }
      i := -1;
    }
  }
}
