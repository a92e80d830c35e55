/** The administration service as the code has it: an object over the
    shared tables, whose workflows issue their reads and writes one after
    another. Each workflow is proved to leave the tables, the journal and
    the outcome exactly as the matching function of module `Moderation`
    says. */
module Service {
  import opened Moderation

  class AdministradorServiceImpl {
    /** `solicitudcurso`, keyed by `id_solicitud_curso`. */
    var solicitudes: map<int, Request>
    /** `curso`: course id to `id_categoria`. */
    var cursos: map<int, int>
    /** `categoria` ids. */
    var categorias: set<int>
    /** Side effects issued so far, in order. */
    var journal: seq<Effect>

    function State(): Db
      reads this
    {
      Db(solicitudes, cursos, categorias, journal)
    }

    constructor (db: Db)
      ensures State() == db
    {
      solicitudes := db.requests;
      cursos := db.courses;
      categorias := db.categories;
      journal := db.journal;
    }

    /** `SELECT COUNT(*) FROM solicitudcurso WHERE id_solicitud_curso = id`. */
    method ContarSolicitudes(id: int) returns (count: nat)
      ensures count <= 1
      ensures count > 0 <==> id in solicitudes
    {
      count := if id in solicitudes then 1 else 0;
    }

    /** `SELECT estatus FROM solicitudcurso WHERE id_solicitud_curso = id`;
        only issued once the row is known to exist. */
    method LeerEstatus(id: int) returns (texto: string)
      requires id in solicitudes
      ensures StatusOf(texto) == solicitudes[id].estatus
    {
      texto := ColumnOf(solicitudes[id].estatus);
    }

    /** `UPDATE solicitudcurso SET estatus = st WHERE id_solicitud_curso = id`. */
    method ActualizarEstatus(id: int, st: Status) returns (filas: nat)
      modifies this
      ensures (State(), filas) == WriteStatus(old(State()), id, st)
    {
      filas := if id in solicitudes then 1 else 0;
      if id in solicitudes {
        solicitudes := solicitudes[id := solicitudes[id].(estatus := st)];
      }
      journal := journal + [StatusWritten(id, st)];
    }

    /** Sends the rejection notice; a transport failure (`!delivered`) is
        recorded and swallowed. */
    method EnviarCorreoRechazo(correoInstructor: string, motivoRechazo: string, tituloCurso: string, delivered: bool)
      modifies this
      ensures State() == SendRejection(old(State()), correoInstructor, motivoRechazo, tituloCurso, delivered)
    {
      var mensaje := RejectionEmail(correoInstructor, motivoRechazo, tituloCurso, delivered);
      journal := journal + [MailSent(mensaje)];
    }

    method AprobarCurso(idSolicitudCurso: int) returns (r: Outcome)
      modifies this
      ensures var res := Approve(old(State()), idSolicitudCurso);
        State() == res.db && r == res.outcome
    {
      var count := ContarSolicitudes(idSolicitudCurso);
      if count == 0 {
        return NotFound;
      }
      var estadoActual := LeerEstatus(idSolicitudCurso);
      if estadoActual == "aprobado" {
        return AlreadyInState;
      }
      if estadoActual == "rechazado" {
        return IllegalTransition;
      }
      var filasAfectadas := ActualizarEstatus(idSolicitudCurso, Aprobado);
      if filasAfectadas > 0 {
        r := Done;
      } else {
        r := UpdateFailed;
      }
    }

    /** `triggerDeletes` says whether the database trigger on the status
        write removes the request row. */
    method RechazarCurso(idSolicitudCurso: int, correoInstructor: string, motivoRechazo: string,
                         tituloCurso: string, delivered: bool, triggerDeletes: bool) returns (r: Outcome)
      modifies this
      ensures var res := Reject(old(State()), idSolicitudCurso, correoInstructor, motivoRechazo,
                                tituloCurso, delivered, triggerDeletes);
        State() == res.db && r == res.outcome
    {
      var count := ContarSolicitudes(idSolicitudCurso);
      if count > 0 {
        var estadoActual := LeerEstatus(idSolicitudCurso);
        if estadoActual == "rechazado" {
          return AlreadyInState;
        }
        if estadoActual == "aprobado" {
          return IllegalTransition;
        }
        // the notice goes out before the write, which may remove the row
        EnviarCorreoRechazo(correoInstructor, motivoRechazo, tituloCurso, delivered);
        var filasAfectadas := ActualizarEstatus(idSolicitudCurso, Rechazado);
        if filasAfectadas > 0 && triggerDeletes {
          var after := RemoveByTrigger(State(), idSolicitudCurso);
          solicitudes, journal := after.requests, after.journal;
        }
        if filasAfectadas > 0 {
          r := Done;
        } else {
          r := UpdateFailed;
        }
      } else {
        r := NotFound;
      }
    }

    /** `SELECT COUNT(*) FROM categoria WHERE id_categoria = id`. */
    method ContarCategorias(id: int) returns (count: nat)
      ensures count <= 1
      ensures count > 0 <==> id in categorias
    {
      count := if id in categorias then 1 else 0;
    }

    method EliminarCategoria(idCategoria: int) returns (eliminada: bool)
      modifies this
      ensures (State(), eliminada) == DeleteCategory(old(State()), idCategoria)
    {
      var count := ContarCategorias(idCategoria);
      if count == 0 {
        return false;
      }
      if idCategoria == DefaultCategory {
        return false;
      }
      cursos := ReassignCourses(cursos, idCategoria);
      journal := journal + [CoursesReassigned(idCategoria)];
      solicitudes := ReassignRequests(solicitudes, idCategoria);
      journal := journal + [RequestsReassigned(idCategoria)];
      var (deleted, rowsAffected) := DeleteCategoryRow(State(), idCategoria);
      categorias, journal := deleted.categories, deleted.journal;
      eliminada := rowsAffected > 0;
    }
  }
}
