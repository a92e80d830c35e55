/** Properties of any sequence of moderation calls, applied one after
    another: what no such sequence of approvals, rejections and category
    deletions can break. */
module Traces {
  import opened Moderation

  /** One call into the service, with the environment's choices for a
      rejection (mail delivered, trigger fires). */
  datatype Op =
    | Approval(id: int)
    | Rejection(id: int, to: string, reason: string, title: string, delivered: bool, triggerDeletes: bool)
    | CategoryDeletion(id: int)

  function Apply(db: Db, op: Op): Db {
    match op
    case Approval(id) => Approve(db, id).db
    case Rejection(id, to, reason, title, delivered, trig) => Reject(db, id, to, reason, title, delivered, trig).db
    case CategoryDeletion(id) => DeleteCategory(db, id).0
  }

  function Run(db: Db, ops: seq<Op>): Db
    decreases |ops|
  {
    if ops == [] then db else Run(Apply(db, ops[0]), ops[1..])
  }

  /** Every course and every request points at an existing category, and
      the default category exists. */
  ghost predicate ReferencesValid(db: Db) {
    && DefaultCategory in db.categories
    && (forall c :: c in db.courses ==> db.courses[c] in db.categories)
    && (forall k :: k in db.requests ==> db.requests[k].categoria in db.categories)
  }

  predicate IsRejectionWrite(e: Effect) {
    e.StatusWritten? && e.estatus == Rechazado
  }

  /** Every write of `rechazado` comes straight after an e-mail send. */
  ghost predicate MailPrecedesRejection(journal: seq<Effect>) {
    forall i :: 0 <= i < |journal| && IsRejectionWrite(journal[i]) ==>
      0 < i && journal[i - 1].MailSent?
  }

  /** One call keeps send-before-reject ordering. */
  lemma ApplyKeepsMailBeforeRejection(db: Db, op: Op)
    requires MailPrecedesRejection(db.journal)
    ensures MailPrecedesRejection(Apply(db, op).journal)
  {
  }

  /** One call keeps referential integrity. */
  lemma ApplyKeepsReferencesValid(db: Db, op: Op)
    requires ReferencesValid(db)
    ensures ReferencesValid(Apply(db, op))
  {
  }

  /** Referential integrity holds after any sequence of calls that starts
      where it holds. */
  lemma {:induction false} RunKeepsReferencesValid(db: Db, ops: seq<Op>)
    requires ReferencesValid(db)
    ensures ReferencesValid(Run(db, ops))
    decreases |ops|
  {
    if ops != [] {
      ApplyKeepsReferencesValid(db, ops[0]);
      RunKeepsReferencesValid(Apply(db, ops[0]), ops[1..]);
    }
  }

  /** Send-before-reject ordering holds after any sequence of calls that
      starts where it holds. */
  lemma {:induction false} RunKeepsMailBeforeRejection(db: Db, ops: seq<Op>)
    requires MailPrecedesRejection(db.journal)
    ensures MailPrecedesRejection(Run(db, ops).journal)
    decreases |ops|
  {
    if ops != [] {
      ApplyKeepsMailBeforeRejection(db, ops[0]);
      RunKeepsMailBeforeRejection(Apply(db, ops[0]), ops[1..]);
    }
  }

  /** Effects are only ever appended: the journal is append-only. */
  lemma {:induction false} RunExtendsJournal(db: Db, ops: seq<Op>)
    ensures db.journal <= Run(db, ops).journal
    decreases |ops|
  {
    if ops != [] {
      var next := Apply(db, ops[0]);
      assert db.journal <= next.journal;
      RunExtendsJournal(next, ops[1..]);
    }
  }

  /** No call creates a course request or a course. */
  lemma {:induction false} RunCreatesNoRows(db: Db, ops: seq<Op>)
    ensures Run(db, ops).requests.Keys <= db.requests.Keys
    ensures Run(db, ops).courses.Keys == db.courses.Keys
    decreases |ops|
  {
    if ops != [] {
      RunCreatesNoRows(Apply(db, ops[0]), ops[1..]);
    }
  }

  /** A terminal status is final: an approved request stays approved and
      present; a rejected one stays rejected until the trigger removes it. */
  lemma {:induction false} RunKeepsTerminalStatus(db: Db, ops: seq<Op>, id: int)
    requires id in db.requests && IsTerminal(db.requests[id].estatus)
    ensures id in Run(db, ops).requests ==> Run(db, ops).requests[id].estatus == db.requests[id].estatus
    ensures db.requests[id].estatus == Aprobado ==> id in Run(db, ops).requests
    decreases |ops|
  {
    if ops != [] {
      var next := Apply(db, ops[0]);
      if id in next.requests {
        assert next.requests[id].estatus == db.requests[id].estatus;
        RunKeepsTerminalStatus(next, ops[1..], id);
      } else {
        assert db.requests[id].estatus == Rechazado;
        RunCreatesNoRows(next, ops[1..]);
      }
    }
  }

  /** A second approval of a just-approved request is a no-op, and a
      rejection of it is refused without a notice. */
  lemma ApproveThenRepeat(db: Db, id: int, to: string, reason: string, title: string, delivered: bool, trig: bool)
    requires Approve(db, id).outcome == Done
    ensures Approve(Approve(db, id).db, id) == Step(Approve(db, id).db, AlreadyInState)
    ensures Reject(Approve(db, id).db, id, to, reason, title, delivered, trig) == Step(Approve(db, id).db, IllegalTransition)
  {
  }

  /** Eligible rejection appends exactly one notice, to the instructor,
      naming the course and the reason, and it precedes the status write. */
  lemma RejectNotifiesOnce(db: Db, id: int, to: string, reason: string, title: string, delivered: bool, trig: bool)
    requires id in db.requests && !IsTerminal(db.requests[id].estatus)
    ensures var after := Reject(db, id, to, reason, title, delivered, trig).db;
      exists m: Email ::
        && Outbox(after.journal) == Outbox(db.journal) + [m]
        && m.to == to && m.delivered == delivered
        && Mentions(m.body, title) && Mentions(m.body, reason)
        && after.journal[|db.journal|] == MailSent(m)
        && after.journal[|db.journal| + 1] == StatusWritten(id, Rechazado)
  {
    var after := Reject(db, id, to, reason, title, delivered, trig).db;
    var m := RejectionEmail(to, reason, title, delivered);
    var tail := [MailSent(m), StatusWritten(id, Rechazado)] + (if trig then [RequestRemovedByTrigger(id)] else []);
    assert after.journal == db.journal + tail;
    OutboxAppend(db.journal, tail);
    OutboxAppend([MailSent(m)], tail[1..]);
    assert tail == [MailSent(m)] + tail[1..];
    assert Outbox(tail[1..]) == [] by {
      OutboxAppend([StatusWritten(id, Rechazado)], tail[2..]);
      assert tail[1..] == [StatusWritten(id, Rechazado)] + tail[2..];
      if trig {
        assert tail[2..] == [RequestRemovedByTrigger(id)];
      } else {
        assert tail[2..] == [];
      }
    }
    OutboxSingle(MailSent(m));
  }

  /** Whether the notice was delivered changes neither the outcome nor any
      table: a transport failure is swallowed. */
  lemma RejectIgnoresDelivery(db: Db, id: int, to: string, reason: string, title: string, trig: bool)
    ensures var ok := Reject(db, id, to, reason, title, true, trig);
      var failed := Reject(db, id, to, reason, title, false, trig);
      && ok.outcome == failed.outcome
      && ok.db.requests == failed.db.requests
      && ok.db.courses == failed.db.courses
      && ok.db.categories == failed.db.categories
      && |ok.db.journal| == |failed.db.journal|
  {
  }

  /** After deleting a category nothing refers to it any more. */
  lemma DeleteCategoryLeavesNoReference(db: Db, id: int)
    requires DeleteCategory(db, id).1
    ensures var after := DeleteCategory(db, id).0;
      && id !in after.categories
      && (forall c :: c in after.courses ==> after.courses[c] != id)
      && (forall k :: k in after.requests ==> after.requests[k].categoria != id)
  {
  }

  /** Request 42 is pending; rejecting it sends one notice and marks it rejected. */
  lemma RejectPendingScenario(journal: seq<Effect>)
    ensures var db := Db(map[42 := Request(Other("pendiente"), 1)], map[], {0, 1}, journal);
      var res := Reject(db, 42, "a@b.com", "low quality", "Intro to Systems", true, false);
      && res.outcome == Done
      && res.db.requests[42].estatus == Rechazado
      && Outbox(res.db.journal) == Outbox(journal) + [RejectionEmail("a@b.com", "low quality", "Intro to Systems", true)]
  {
    var db := Db(map[42 := Request(Other("pendiente"), 1)], map[], {0, 1}, journal);
    RejectNotifiesOnce(db, 42, "a@b.com", "low quality", "Intro to Systems", true, false);
  }

  /** Request 7 is approved; approving it again changes nothing. */
  lemma ApproveApprovedScenario(journal: seq<Effect>)
    ensures var db := Db(map[7 := Request(Aprobado, 0)], map[], {0}, journal);
      Approve(db, 7) == Step(db, AlreadyInState)
  {
  }
}
