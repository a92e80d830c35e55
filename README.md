# Course-request moderation in the Finner back end

This project models the moderation logic of the Finner course platform's
administration service, `AdministradorServiceImpl`:

- approval of a course request (`aprobarCurso`);
- rejection of a course request (`rechazarCurso`), together with the rejection
  e-mail to the instructor (`enviarCorreoRechazo`);
- deletion of a category (`eliminarCategoria`), which first moves every course
  and every course request of that category to the default category 0.

The database is abstract. The `solicitudcurso` table is a map from request id
to a row (`estatus`, `id_categoria`). The `curso` table is a map from course id
to category id. The `categoria` table is a set of ids. A journal records every
side effect in the order it is issued: each e-mail send, each status UPDATE,
each category UPDATE or DELETE, and each row the database trigger removes. The
journal is how the model states ordering, such as "the notice goes out before the
status write". It also states "nothing is issued on a refusal".

Files:

- `moderation.dfy`, module `Moderation`. The data model. Each workflow is a
  function from the old database value to the new one and its outcome
  (`Approve`, `Reject`, `DeleteCategory`). Also: the single SQL statements, the
  rejection e-mail, and the legacy result strings.
- `service.dfy`, module `Service`. The class `AdministradorServiceImpl` holds
  the tables as fields. Its methods issue the reads and writes one after
  another, as the Java does. Each workflow method is proved to leave the tables,
  the journal and its result exactly as the matching `Moderation` function says.
- `traces.dfy`, module `Traces`. Properties of any sequence of calls:
  - references stay valid;
  - send-before-write ordering is kept: if every `rechazado` write follows an e-mail send, it still does after the calls;
  - a terminal status is final;
  - the journal is append-only;
  - no rows are created.

Results are a tagged `Outcome` (`Done`, `NotFound`, `AlreadyInState`,
`IllegalTransition`, `UpdateFailed`). `ApprovalMessage` and `RejectionMessage`
render the exact strings the Java methods return.

Environment inputs:

- `delivered` says whether the mail transport accepted the notice. The code
  swallows a failure, so control flow ignores this flag; it is only recorded
  in the journalled e-mail.
- `triggerDeletes` says whether the database trigger on the status write removes
  the rejected request row. The trigger itself is not visible, so the model
  allows both. It assumes the trigger acts after the UPDATE and never cancels
  it, so the UPDATE still counts its row.

Notes on the code:

- A status is a free string in the code, compared only against `"aprobado"` and
  `"rechazado"`. `StatusOf` reads a column text as a `Status`. Any other text, a
  pending one included, is `Other(name)`, and its type rules out the two literals.
- The rejection reason is not stored on the request. It is only put into the
  e-mail.
- The e-mail's recipient and course title are the caller's arguments. They are
  never read from the stored request.
- In `eliminarCategoria` the existence check comes before the check for id 0.
  Both refusals return `false` with no change, so the order cannot be observed.

In a sequential run, the status UPDATE is issued only for a row just seen to
exist. With a trigger that does not cancel the UPDATE, it always touches one
row. The `Approve` and `Reject` contracts therefore give every input one of the
other four outcomes. The code's
"Error al actualizar el registro" branch (`UpdateFailed`) is kept, but no
sequential run reaches it.

## Model

All source paths are in
`src/main/java/mx/utng/finer_back_end/Administrador/Implement/AdministradorServiceImpl.java`.

| member | source | states |
|---|---|---|
| Moderation.StatusOf | src/main/java/mx/utng/finer_back_end/Administrador/Implement/AdministradorServiceImpl.java:263-278 | The column text counts as approved iff it equals "aprobado" and as rejected iff it equals "rechazado". Any other text is kept unchanged as `Other`. |
| Moderation.StatusColumnRoundTrip | src/main/java/mx/utng/finer_back_end/Administrador/Implement/AdministradorServiceImpl.java:263-278 | Reading a column text as a status and writing it back gives the same text, and the other way round. |
| Moderation.Approve | src/main/java/mx/utng/finer_back_end/Administrador/Implement/AdministradorServiceImpl.java:249-296 | Not-found iff the id has no request. Already-approved iff its status is `aprobado`. Illegal iff it is `rechazado`. Success iff it exists with any other status. Every refusal leaves the database, journal included, unchanged. Success sets exactly that request's status to `aprobado` and journals one status write. |
| Moderation.Reject | src/main/java/mx/utng/finer_back_end/Administrador/Implement/AdministradorServiceImpl.java:49-102 | The same guard outcomes with the roles of `aprobado` and `rechazado` swapped. A refusal sends no e-mail and changes nothing. Success journals the notice, then the `rechazado` write, then the trigger's removal if it fires. The request then either holds `rechazado` or is gone. Courses and categories never change. |
| Moderation.RejectionEmail | src/main/java/mx/utng/finer_back_end/Administrador/Implement/AdministradorServiceImpl.java:113-125 | The notice comes from the service address, goes to the instructor, and has the fixed subject. Its body contains the course title and the rejection reason. |
| Moderation.RejectionBody | src/main/java/mx/utng/finer_back_end/Administrador/Implement/AdministradorServiceImpl.java:118-123 | The body opens with the greeting and the quoted course title, followed by the reason line. It ends with the fixed closing and signature. Its length is that of these parts plus the title and the reason. |
| Moderation.RejectionBodyMentions | src/main/java/mx/utng/finer_back_end/Administrador/Implement/AdministradorServiceImpl.java:118-123 | The body text contains the title and the reason as substrings. |
| Moderation.SendRejection | src/main/java/mx/utng/finer_back_end/Administrador/Implement/AdministradorServiceImpl.java:111-131 | A send attempt appends exactly one e-mail to the outbox and touches no table, whether or not it was delivered. |
| Moderation.OutboxSingle | src/main/java/mx/utng/finer_back_end/Administrador/Implement/AdministradorServiceImpl.java:127 | One effect contributes exactly its e-mail to the outbox if it is a send, and nothing otherwise. |
| Moderation.OutboxAppend | src/main/java/mx/utng/finer_back_end/Administrador/Implement/AdministradorServiceImpl.java:127 | The e-mails sent by two consecutive runs of effects are those of the first run followed by those of the second. |
| Moderation.WriteStatus | src/main/java/mx/utng/finer_back_end/Administrador/Implement/AdministradorServiceImpl.java:84-87 | The status UPDATE touches one row iff the id exists. It changes only that row's status and keeps the key set. It journals the write. |
| Moderation.RemoveByTrigger | src/main/java/mx/utng/finer_back_end/Administrador/Implement/AdministradorServiceImpl.java:80 | The trigger removes just that request and leaves the other rows unchanged. |
| Moderation.ReassignCourses | src/main/java/mx/utng/finer_back_end/Administrador/Implement/AdministradorServiceImpl.java:209-212 | Courses of the category move to category 0. Every other course keeps its category. No course is added or dropped. |
| Moderation.ReassignRequests | src/main/java/mx/utng/finer_back_end/Administrador/Implement/AdministradorServiceImpl.java:214-217 | Requests of the category move to category 0. Every other request is unchanged. Every status is kept. |
| Moderation.DeleteCategoryRow | src/main/java/mx/utng/finer_back_end/Administrador/Implement/AdministradorServiceImpl.java:223-226 | The DELETE removes the id from the categories. It reports one row iff the id was present. |
| Moderation.DeleteCategory | src/main/java/mx/utng/finer_back_end/Administrador/Implement/AdministradorServiceImpl.java:188-238 | Returns true iff the category exists and is not 0. Returning false means nothing changed. Returning true means the category is gone and exactly the references to it were moved to 0. Statuses and all other references are untouched. Effects are journalled in order: courses, then requests, then the delete. |
| Moderation.ApprovalMessage | src/main/java/mx/utng/finer_back_end/Administrador/Implement/AdministradorServiceImpl.java:258-290 | This is the literal `aprobarCurso` returns for each outcome. The success text stands for success and nothing else, and the update-error text stands for the zero-rows case alone. |
| Moderation.RejectionMessage | src/main/java/mx/utng/finer_back_end/Administrador/Implement/AdministradorServiceImpl.java:72-95 | This is the literal `rechazarCurso` returns for each outcome. "Rechazado" stands for success and nothing else, and the update-error text stands for the zero-rows case alone. |
| Moderation.ApprovalMessagesDistinct | src/main/java/mx/utng/finer_back_end/Administrador/Implement/AdministradorServiceImpl.java:258-290 | The five strings `aprobarCurso` can return are pairwise different, so the string identifies the outcome. |
| Moderation.RejectionMessagesDistinct | src/main/java/mx/utng/finer_back_end/Administrador/Implement/AdministradorServiceImpl.java:72-95 | The five strings `rechazarCurso` can return are pairwise different. |
| Traces.ApplyKeepsReferencesValid | src/main/java/mx/utng/finer_back_end/Administrador/Implement/AdministradorServiceImpl.java:202-226 | Suppose category 0 exists and every course and request names an existing category. Then this still holds after any one call. |
| Traces.RunKeepsReferencesValid | src/main/java/mx/utng/finer_back_end/Administrador/Implement/AdministradorServiceImpl.java:202-226 | The same holds after any sequence of calls. |
| Traces.ApplyKeepsMailBeforeRejection | src/main/java/mx/utng/finer_back_end/Administrador/Implement/AdministradorServiceImpl.java:80-87 | Suppose every `rechazado` write in the journal directly follows an e-mail send. Then this still holds after any one call. |
| Traces.RunKeepsMailBeforeRejection | src/main/java/mx/utng/finer_back_end/Administrador/Implement/AdministradorServiceImpl.java:80-87 | Suppose every `rechazado` write in the journal directly follows an e-mail send. Then this still holds after any sequence of calls. |
| Traces.RunExtendsJournal | src/main/java/mx/utng/finer_back_end/Administrador/Implement/AdministradorServiceImpl.java:81-87 | Effects are only appended: the old journal is a prefix of the new one. |
| Traces.RunCreatesNoRows | src/main/java/mx/utng/finer_back_end/Administrador/Implement/AdministradorServiceImpl.java:209-226 | No sequence of calls adds a request. The set of courses stays the same. |
| Traces.RunKeepsTerminalStatus | src/main/java/mx/utng/finer_back_end/Administrador/Implement/AdministradorServiceImpl.java:272-278 | A terminal status never changes. An approved request is never removed. A rejected one may only disappear. |
| Traces.ApproveThenRepeat | src/main/java/mx/utng/finer_back_end/Administrador/Implement/AdministradorServiceImpl.java:272-278 | After a successful approval, a second approval is a no-op. A rejection is then refused and changes nothing. |
| Traces.RejectNotifiesOnce | src/main/java/mx/utng/finer_back_end/Administrador/Implement/AdministradorServiceImpl.java:80-87 | An eligible rejection adds exactly one e-mail to the outbox. It goes to the instructor and names the title and the reason. It comes right before the `rechazado` write. |
| Traces.RejectIgnoresDelivery | src/main/java/mx/utng/finer_back_end/Administrador/Implement/AdministradorServiceImpl.java:128-131 | A delivered notice and a failed one give the same outcome and the same tables. |
| Traces.DeleteCategoryLeavesNoReference | src/main/java/mx/utng/finer_back_end/Administrador/Implement/AdministradorServiceImpl.java:209-226 | After a successful deletion, no course, request or category refers to the deleted id. |
| Traces.RejectPendingScenario | src/main/java/mx/utng/finer_back_end/Administrador/Implement/AdministradorServiceImpl.java:80-90 | Request 42, pending: rejecting it sends one notice with that title and reason, then marks it `rechazado`. |
| Traces.ApproveApprovedScenario | src/main/java/mx/utng/finer_back_end/Administrador/Implement/AdministradorServiceImpl.java:272-274 | Request 7, approved: approving it again is a no-op. |
| Service.AdministradorServiceImpl.ContarSolicitudes | src/main/java/mx/utng/finer_back_end/Administrador/Implement/AdministradorServiceImpl.java:52-56 | The count is 0 or 1, and it is positive iff the request exists. |
| Service.AdministradorServiceImpl.LeerEstatus | src/main/java/mx/utng/finer_back_end/Administrador/Implement/AdministradorServiceImpl.java:64-68 | Returns the column text of an existing request, which `StatusOf` reads as its stored status. |
| Service.AdministradorServiceImpl.ActualizarEstatus | src/main/java/mx/utng/finer_back_end/Administrador/Implement/AdministradorServiceImpl.java:281-284 | The new state and the row count are those of `WriteStatus`. |
| Service.AdministradorServiceImpl.EnviarCorreoRechazo | src/main/java/mx/utng/finer_back_end/Administrador/Implement/AdministradorServiceImpl.java:111-131 | The new state is that of `SendRejection`. |
| Service.AdministradorServiceImpl.AprobarCurso | src/main/java/mx/utng/finer_back_end/Administrador/Implement/AdministradorServiceImpl.java:249-296 | The tables, the journal and the result after the step-by-step run are exactly `Approve` of the old state. |
| Service.AdministradorServiceImpl.RechazarCurso | src/main/java/mx/utng/finer_back_end/Administrador/Implement/AdministradorServiceImpl.java:49-102 | The tables, the journal and the result after the step-by-step run are exactly `Reject` of the old state. |
| Service.AdministradorServiceImpl.ContarCategorias | src/main/java/mx/utng/finer_back_end/Administrador/Implement/AdministradorServiceImpl.java:191-195 | The count is 0 or 1, and it is positive iff the category exists. |
| Service.AdministradorServiceImpl.EliminarCategoria | src/main/java/mx/utng/finer_back_end/Administrador/Implement/AdministradorServiceImpl.java:188-238 | The tables, the journal and the result are exactly `DeleteCategory` of the old state. |

## Left out

- `eliminarAlumnoCurso`, `crearCategoria` and `modificarCategoriaDescripcion` are left out. Each only forwards its arguments to a PostgreSQL function whose logic is not part of this model.
- The exception handlers are left out. These are the "Error al rechazar/aprobar el curso: …" strings and the `false` of `eliminarCategoria` on an exception. Each `catch (Exception e)` catches every exception of its block, not only connection failures. Examples are a constraint violation on the category DELETE, a failed reassignment when category 0 is missing, or an error raised by the status-write trigger. The abstract store never fails, so all of these paths are dropped.
- With them goes one state a caller can see. The rejection UPDATE may throw after `enviarCorreoRechazo` has already sent the notice. The caller then gets "Error al rechazar el curso: …" while the instructor has the e-mail and the status is unchanged. The model does not represent this.
- `@Transactional` rollback is left out, because in the model no statement fails.
- The mail transport and the `SimpleMailMessage` API are not modelled. Only the recipient, sender, subject, body and a delivered flag are recorded.
- The database trigger that removes a rejected request is not visible. It is an input flag applied after a write that touched a row. A trigger that cancels the UPDATE (a BEFORE trigger that deletes the row and returns NULL) would give a count of 0 and the "Error al actualizar el registro" result. The model does not represent such a trigger.
- No trigger other than the rejection trigger is modelled. The approval UPDATE, the two reassigning UPDATEs and the category DELETE fire nothing in the model. A database trigger on `estatus` writes could also act on `aprobado`, for example by creating a `curso` row or removing the request. Three lemmas depend on there being no such trigger:
  - Traces.RunCreatesNoRows: the set of courses stays the same.
  - Traces.RunKeepsTerminalStatus: an approved request is never removed.
  - Traces.ApproveThenRepeat: a second approval finds the row again.
- Interleaving of concurrent calls is not modelled. This includes the race between count, read and update. The model is sequential, so the zero-rows branch (`UpdateFailed`) is unreachable in it.
- The rows counts that `eliminarCategoria` only logs are not returned. Console logging is left out.
- Null values are not modelled. This covers a null `estatus`, a null id, and a null `correoInstructor`, `motivoRechazo` or `tituloCurso`. A null status would behave as `Other`, as `"aprobado".equals(null)` is false. Java's concatenation would put the text "null" into the e-mail body for a null title or reason.
- `TemaController.java` and `CursoService.java` are not part of this model. They only bind HTTP parameters or forward to a stored function.
