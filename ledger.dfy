/**
 * The data model of the appointment engine: the rows of the tables the
 * ticket controller reads and writes (models/db_models.py), as values.
 */
module Ledger {

  /** Ticket status: the enumeration of column `turnos.estado`. */
  datatype Estado = Pendiente | Resuelto | Cancelado

  /** The seven keys of column `horarios_atencion.dia_semana`. */
  datatype DiaSemana = Lunes | Martes | Miercoles | Jueves | Viernes | Sabado | Domingo

  /**
   * One row of `horarios_atencion`: opening and closing time as minutes of
   * day, and the daily cap `max_turnos_dia`. At most one row per office and
   * weekday (constraint `uq_oficina_dia`), which the store expresses by keying
   * its schedule map on (office, weekday).
   */
  datatype Hours = Hours(open: int, close: int, maxPerDay: int)

  /** The seven requester fields the ticket form submits besides the CURP. */
  datatype PersonalData = PersonalData(
    nombreTramitante: string,
    nombre: string,
    paterno: string,
    materno: string,
    telefono: string,
    celular: string,
    correo: string)

  /** One row of `solicitantes`; the CURP is unique among them. */
  datatype Requester = Requester(curp: string, data: PersonalData)

  /**
   * One row of `turnos`. `requester` is the position of its `solicitantes` row,
   * `date` a day number and `time` a minute of day (the appointment slot),
   * `numero` the per-municipality folio and `qr` the value of `codigo_qr`,
   * which is unique among all tickets.
   */
  datatype Ticket = Ticket(
    numero: int,
    office: int,
    requester: nat,
    date: int,
    time: int,
    level: int,
    subject: int,
    estado: Estado,
    qr: string)

  /** No two tickets hold the same office, date and time. */
  predicate SlotsDistinct(tickets: seq<Ticket>)
  {
    forall i, j :: 0 <= i < j < |tickets| ==>
      !(tickets[i].office == tickets[j].office && tickets[i].date == tickets[j].date && tickets[i].time == tickets[j].time)
  }

  /** Some ticket of any status stands at `office` on `date` at `time`. */
  predicate Occupied(tickets: seq<Ticket>, office: int, date: int, time: int)
  {
    exists i :: 0 <= i < |tickets| && tickets[i].office == office && tickets[i].date == date && tickets[i].time == time
  }

  /** Adding a ticket to a free slot keeps every slot held by at most one ticket. */
  lemma FreeSlotKeepsSlotsDistinct(tickets: seq<Ticket>, t: Ticket)
    requires SlotsDistinct(tickets)
    requires !Occupied(tickets, t.office, t.date, t.time)
    ensures SlotsDistinct(tickets + [t])
  {
    var ts := tickets + [t];
    forall i, j | 0 <= i < j < |ts|
      ensures !(ts[i].office == ts[j].office && ts[i].date == ts[j].date && ts[i].time == ts[j].time)
    {
      if j == |tickets| {
        assert ts[i] == tickets[i];
      }
    }
  }

  /** Constraint `solicitantes.curp UNIQUE`. */
  predicate CurpsUnique(requesters: seq<Requester>)
  {
    forall i, j :: 0 <= i < j < |requesters| ==> requesters[i].curp != requesters[j].curp
  }

  /** Constraint `turnos.codigo_qr UNIQUE`. */
  predicate QrUnique(tickets: seq<Ticket>)
  {
    forall i, j :: 0 <= i < j < |tickets| ==> tickets[i].qr != tickets[j].qr
  }

  /** Some ticket already carries `qr` as its `codigo_qr`. */
  predicate QrTaken(tickets: seq<Ticket>, qr: string)
  {
    exists i :: 0 <= i < |tickets| && tickets[i].qr == qr
  }
}
