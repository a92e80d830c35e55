/** Course-request moderation and category deletion of the Finner
    administration service, stated on values.

    The database is a `Db` value: the `solicitudcurso` rows (requests), the
    `curso` rows (course id to category id), the `categoria` ids, and a
    journal that records, in order, every side-effecting statement a
    workflow issues (an e-mail send, an UPDATE, a DELETE, a row removed by
    the database trigger). Each workflow is a function from the old `Db` to
    the new one and its outcome; the stateful service class in module
    `Service` is proved against these functions. */
module Moderation {

  /** A stored `estatus` text other than the two literals the code tests. */
  type OtherStatus = s: string | s != "aprobado" && s != "rechazado" witness ""

  /** The `estatus` column. The code only compares it against the two
      literals "aprobado" and "rechazado"; any other stored text (e.g. a
      pending one) is `Other`, which by its type cannot hold either literal.
      `StatusOf` reads a column text as a `Status`. */
  datatype Status = Aprobado | Rechazado | Other(name: OtherStatus)

  /** How the code classifies the text read from the `estatus` column. */
  function StatusOf(column: string): (st: Status)
    ensures st == Aprobado <==> column == "aprobado"
    ensures st == Rechazado <==> column == "rechazado"
    ensures st.Other? ==> st.name == column
  {
    if column == "aprobado" then Aprobado
    else if column == "rechazado" then Rechazado
    else Other(column)
  }

  /** The text stored in the `estatus` column for a status. */
  function ColumnOf(st: Status): string {
    match st
    case Aprobado => "aprobado"
    case Rechazado => "rechazado"
    case Other(name) => name
  }

  /** Reading a column text and storing it back are inverse to each other. */
  lemma StatusColumnRoundTrip(column: string, st: Status)
    ensures ColumnOf(StatusOf(column)) == column
    ensures StatusOf(ColumnOf(st)) == st
  {
  }

  predicate IsTerminal(st: Status) {
    st == Aprobado || st == Rechazado
  }

  /** A `solicitudcurso` row: the columns the core reads or writes. */
  datatype Request = Request(estatus: Status, categoria: int)

  /** A rejection notice as handed to the mail transport. `delivered`
      records whether the transport accepted it; a failure is swallowed. */
  datatype Email = Email(from: string, to: string, subject: string, body: string, delivered: bool)

  /** One side-effecting step, in the order it was issued. */
  datatype Effect =
    | MailSent(mail: Email)
    | StatusWritten(id: int, estatus: Status)
    | RequestRemovedByTrigger(id: int)
    | CoursesReassigned(from: int)
    | RequestsReassigned(from: int)
    | CategoryRowDeleted(id: int)

  datatype Db = Db(
    requests: map<int, Request>,
    courses: map<int, int>,
    categories: set<int>,
    journal: seq<Effect>)

  /** Tagged outcome of approval and rejection; the legacy strings are
      rendered by `ApprovalMessage` and `RejectionMessage`. */
  datatype Outcome = Done | NotFound | AlreadyInState | IllegalTransition | UpdateFailed

  datatype Step = Step(db: Db, outcome: Outcome)

  /** The category that orphaned references are moved to; it is never deleted. */
  const DefaultCategory: int := 0

  const Sender: string := "finner.oficial.2025@gmail.com"
  const RejectionSubject: string := "Solicitud de curso rechazada - Finner"

  const BodyOpening: string := "Estimado instructor,\n\nLe informamos que su solicitud para el curso \""
  const BodyAfterTitle: string := "\" ha sido rechazada.\n\nMotivo del rechazo: "
  const BodyClosing: string :=
    "\n\nSi tiene alguna duda o desea m\U{e1}s informaci\U{f3}n, por favor contacte al equipo administrativo.\n\n"
    + "Atentamente,\nEl equipo de Finner"

  /** `part` occurs somewhere in `text`. */
  ghost predicate Mentions(text: string, part: string) {
    exists i | 0 <= i <= |text| :: part <= text[i..]
  }

  lemma MentionsMiddle(a: string, b: string, c: string)
    ensures Mentions(a + b + c, b)
  {
    var t := a + b + c;
    assert t[|a|..] == b + c;
    assert b <= t[|a|..];
  }

  /** The text of the rejection notice: the greeting with the quoted course
      title, the reason line, and the fixed closing and signature. */
  function RejectionBody(title: string, reason: string): (r: string)
    ensures BodyOpening + title + BodyAfterTitle <= r
    ensures |r| == |BodyOpening| + |title| + |BodyAfterTitle| + |reason| + |BodyClosing|
    ensures r[|r| - |BodyClosing|..] == BodyClosing
  {
    BodyOpening + title + BodyAfterTitle + reason + BodyClosing
  }

  /** Both filled-in parts of a five-part text are mentioned in it. */
  lemma MentionsFilledParts(a: string, b: string, c: string, d: string, e: string)
    ensures Mentions(a + b + c + d + e, b)
    ensures Mentions(a + b + c + d + e, d)
  {
    assert a + b + c + d + e == a + b + (c + d + e);
    assert a + b + c + d + e == (a + b + c) + d + e;
    MentionsMiddle(a, b, c + d + e);
    MentionsMiddle(a + b + c, d, e);
  }

  lemma RejectionBodyMentions(title: string, reason: string)
    ensures Mentions(RejectionBody(title, reason), title)
    ensures Mentions(RejectionBody(title, reason), reason)
  {
    MentionsFilledParts(BodyOpening, title, BodyAfterTitle, reason, BodyClosing);
  }

  /** The notice built by `enviarCorreoRechazo`: from the service address,
      to the instructor, naming the course and the reason. */
  function RejectionEmail(to: string, reason: string, title: string, delivered: bool): (m: Email)
    ensures m.from == Sender && m.to == to && m.subject == RejectionSubject
    ensures m.delivered == delivered
    ensures Mentions(m.body, title) && Mentions(m.body, reason)
  {
    RejectionBodyMentions(title, reason);
    Email(Sender, to, RejectionSubject, RejectionBody(title, reason), delivered)
  }

  /** The e-mails among the effects, in order. */
  function Outbox(journal: seq<Effect>): seq<Email> {
    if journal == [] then []
    else (if journal[0].MailSent? then [journal[0].mail] else []) + Outbox(journal[1..])
  }

  /** A single effect contributes its e-mail, if it is a send. */
  lemma OutboxSingle(e: Effect)
    ensures Outbox([e]) == if e.MailSent? then [e.mail] else []
  {
  }

  lemma {:induction false} OutboxAppend(a: seq<Effect>, b: seq<Effect>)
    ensures Outbox(a + b) == Outbox(a) + Outbox(b)
  {
    if a == [] {
      assert a + b == b;
    } else {
      assert (a + b)[0] == a[0];
      assert (a + b)[1..] == a[1..] + b;
      OutboxAppend(a[1..], b);
    }
  }

  /** Attempting to send the rejection notice: the attempt is journalled and
      nothing else changes, whether or not it was delivered. */
  function SendRejection(db: Db, to: string, reason: string, title: string, delivered: bool): (res: Db)
    ensures res.requests == db.requests && res.courses == db.courses && res.categories == db.categories
    ensures res.journal == db.journal + [MailSent(RejectionEmail(to, reason, title, delivered))]
    ensures Outbox(res.journal) == Outbox(db.journal) + [RejectionEmail(to, reason, title, delivered)]
  {
    var m := RejectionEmail(to, reason, title, delivered);
    OutboxAppend(db.journal, [MailSent(m)]);
    OutboxSingle(MailSent(m));
    db.(journal := db.journal + [MailSent(m)])
  }

  /** `UPDATE solicitudcurso SET estatus = st WHERE id_solicitud_curso = id`,
      with the number of rows it touched. */
  function WriteStatus(db: Db, id: int, st: Status): (res: (Db, nat))
    ensures res.1 == (if id in db.requests then 1 else 0)
    ensures res.0.journal == db.journal + [StatusWritten(id, st)]
    ensures res.0.requests.Keys == db.requests.Keys
    ensures id in db.requests ==> res.0.requests[id] == Request(st, db.requests[id].categoria)
    ensures forall k :: k in db.requests && k != id ==> res.0.requests[k] == db.requests[k]
    ensures res.0.courses == db.courses && res.0.categories == db.categories
  {
    var reqs := if id in db.requests then db.requests[id := db.requests[id].(estatus := st)] else db.requests;
    (db.(requests := reqs, journal := db.journal + [StatusWritten(id, st)]), if id in db.requests then 1 else 0)
  }

  /** The database trigger that deletes a request once it is rejected. */
  function RemoveByTrigger(db: Db, id: int): (res: Db)
    ensures res.requests.Keys == db.requests.Keys - {id}
    ensures forall k :: k in res.requests ==> res.requests[k] == db.requests[k]
    ensures res.journal == db.journal + [RequestRemovedByTrigger(id)]
    ensures res.courses == db.courses && res.categories == db.categories
  {
    db.(requests := db.requests - {id}, journal := db.journal + [RequestRemovedByTrigger(id)])
  }

  /** `aprobarCurso`: existence, then the two terminal statuses, then the write. */
  function Approve(db: Db, id: int): (res: Step)
    ensures res.outcome == NotFound <==> id !in db.requests
    ensures res.outcome == AlreadyInState <==> id in db.requests && db.requests[id].estatus == Aprobado
    ensures res.outcome == IllegalTransition <==> id in db.requests && db.requests[id].estatus == Rechazado
    ensures res.outcome == Done <==> id in db.requests && !IsTerminal(db.requests[id].estatus)
    ensures res.outcome != Done ==> res.db == db
    ensures res.outcome == Done ==>
      res.db == db.(requests := db.requests[id := Request(Aprobado, db.requests[id].categoria)],
                    journal := db.journal + [StatusWritten(id, Aprobado)])
  {
    if id !in db.requests then Step(db, NotFound)
    else
      var st := db.requests[id].estatus;
      if st == Aprobado then Step(db, AlreadyInState)
      else if st == Rechazado then Step(db, IllegalTransition)
      else
        var (written, rows) := WriteStatus(db, id, Aprobado);
        if rows > 0 then Step(written, Done) else Step(written, UpdateFailed)
  }

  /** `rechazarCurso`: existence, then the two terminal statuses, then the
      notice, then the write, after which the trigger may remove the row.
      `delivered` is whether the mail transport accepted the notice and
      `triggerDeletes` whether the trigger removes the row. */
  function Reject(db: Db, id: int, to: string, reason: string, title: string,
                  delivered: bool, triggerDeletes: bool): (res: Step)
    ensures res.outcome == NotFound <==> id !in db.requests
    ensures res.outcome == AlreadyInState <==> id in db.requests && db.requests[id].estatus == Rechazado
    ensures res.outcome == IllegalTransition <==> id in db.requests && db.requests[id].estatus == Aprobado
    ensures res.outcome == Done <==> id in db.requests && !IsTerminal(db.requests[id].estatus)
    ensures res.outcome != Done ==> res.db == db
    ensures res.outcome == Done ==>
      res.db.journal == db.journal
        + [MailSent(RejectionEmail(to, reason, title, delivered)), StatusWritten(id, Rechazado)]
        + (if triggerDeletes then [RequestRemovedByTrigger(id)] else [])
    ensures res.outcome == Done ==>
      res.db.requests == if triggerDeletes then db.requests - {id}
                         else db.requests[id := Request(Rechazado, db.requests[id].categoria)]
    ensures res.db.courses == db.courses && res.db.categories == db.categories
  {
    if id !in db.requests then Step(db, NotFound)
    else
      var st := db.requests[id].estatus;
      if st == Rechazado then Step(db, AlreadyInState)
      else if st == Aprobado then Step(db, IllegalTransition)
      else
        var mailed := SendRejection(db, to, reason, title, delivered);
        var (written, rows) := WriteStatus(mailed, id, Rechazado);
        var after := if rows > 0 && triggerDeletes then RemoveByTrigger(written, id) else written;
        if rows > 0 then Step(after, Done) else Step(after, UpdateFailed)
  }

  /** `DELETE FROM categoria WHERE id_categoria = id`, with the rows it touched. */
  function DeleteCategoryRow(db: Db, id: int): (res: (Db, nat))
    ensures res.1 == (if id in db.categories then 1 else 0)
    ensures res.0.categories == db.categories - {id}
    ensures res.0.journal == db.journal + [CategoryRowDeleted(id)]
    ensures res.0.requests == db.requests && res.0.courses == db.courses
  {
    (db.(categories := db.categories - {id}, journal := db.journal + [CategoryRowDeleted(id)]),
     if id in db.categories then 1 else 0)
  }

  /** `UPDATE curso SET id_categoria = 0 WHERE id_categoria = from`. */
  function ReassignCourses(courses: map<int, int>, from: int): (res: map<int, int>)
    ensures res.Keys == courses.Keys
    ensures forall c :: c in courses && courses[c] == from ==> res[c] == DefaultCategory
    ensures forall c :: c in courses && courses[c] != from ==> res[c] == courses[c]
  {
    map c | c in courses :: if courses[c] == from then DefaultCategory else courses[c]
  }

  /** `UPDATE solicitudcurso SET id_categoria = 0 WHERE id_categoria = from`. */
  function ReassignRequests(requests: map<int, Request>, from: int): (res: map<int, Request>)
    ensures res.Keys == requests.Keys
    ensures forall k :: k in requests ==> res[k].estatus == requests[k].estatus
    ensures forall k :: k in requests && requests[k].categoria == from ==> res[k].categoria == DefaultCategory
    ensures forall k :: k in requests && requests[k].categoria != from ==> res[k] == requests[k]
  {
    map k | k in requests ::
      if requests[k].categoria == from then requests[k].(categoria := DefaultCategory) else requests[k]
  }

  /** `eliminarCategoria`: refuses a missing category and the default one;
      otherwise moves every course and request of the category to the
      default category, then deletes the category row. */
  function DeleteCategory(db: Db, id: int): (res: (Db, bool))
    ensures res.1 <==> id in db.categories && id != DefaultCategory
    ensures !res.1 ==> res.0 == db
    ensures res.1 ==> res.0.categories == db.categories - {id}
    ensures res.1 ==> res.0.journal == db.journal + [CoursesReassigned(id), RequestsReassigned(id), CategoryRowDeleted(id)]
    ensures res.0.courses.Keys == db.courses.Keys && res.0.requests.Keys == db.requests.Keys
    ensures res.1 ==> forall c :: c in db.courses && db.courses[c] == id ==> res.0.courses[c] == DefaultCategory
    ensures forall c :: c in db.courses && db.courses[c] != id ==> res.0.courses[c] == db.courses[c]
    ensures forall k :: k in db.requests ==> res.0.requests[k].estatus == db.requests[k].estatus
    ensures res.1 ==> forall k :: k in db.requests && db.requests[k].categoria == id ==>
      res.0.requests[k].categoria == DefaultCategory
    ensures forall k :: k in db.requests && db.requests[k].categoria != id ==> res.0.requests[k] == db.requests[k]
  {
    if id !in db.categories then (db, false)
    else if id == DefaultCategory then (db, false)
    else
      var moved := db.(courses := ReassignCourses(db.courses, id),
                       journal := db.journal + [CoursesReassigned(id)]);
      var moved' := moved.(requests := ReassignRequests(moved.requests, id),
                           journal := moved.journal + [RequestsReassigned(id)]);
      var (deleted, rows) := DeleteCategoryRow(moved', id);
      (deleted, rows > 0)
  }

  /** The string `aprobarCurso` returns for each outcome. */
  function ApprovalMessage(o: Outcome): (m: string)
    ensures m == "El curso ha sido aprobado exitosamente." <==> o == Done
    ensures m == "Error al actualizar el registro" <==> o == UpdateFailed
  {
    match o
    case NotFound => "La solicitud de curso no existe."
    case AlreadyInState => "La solicitud ya ha sido aprobada anteriormente"
    case IllegalTransition => "No se puede aprobar una solicitud que ya ha sido rechazada"
    case UpdateFailed => "Error al actualizar el registro"
    case Done => "El curso ha sido aprobado exitosamente."
  }

  /** The string `rechazarCurso` returns for each outcome. */
  function RejectionMessage(o: Outcome): (m: string)
    ensures m == "Rechazado" <==> o == Done
    ensures m == "Error al actualizar el registro" <==> o == UpdateFailed
  {
    match o
    case NotFound => "No se encontr\U{f3} la solicitud de curso con el ID proporcionado"
    case AlreadyInState => "La solicitud ya ha sido rechazada anteriormente"
    case IllegalTransition => "No se puede rechazar una solicitud que ya ha sido aprobada"
    case UpdateFailed => "Error al actualizar el registro"
    case Done => "Rechazado"
  }

  /** Callers of `aprobarCurso` tell the outcomes apart by the string alone. */
  lemma ApprovalMessagesDistinct(o1: Outcome, o2: Outcome)
    ensures ApprovalMessage(o1) == ApprovalMessage(o2) ==> o1 == o2
  {
  }

  /** Callers of `rechazarCurso` tell the outcomes apart by the string alone. */
  lemma RejectionMessagesDistinct(o1: Outcome, o2: Outcome)
    ensures RejectionMessage(o1) == RejectionMessage(o2) ==> o1 == o2
  {
  }
}
