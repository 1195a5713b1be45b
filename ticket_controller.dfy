/**
 * The ticket controller (controllers/ticket_controller.py) over the database
 * state it reads and writes. The store's fields are the tables; a requester's
 * and a ticket's id is its position in `requesters` and `tickets`, and the
 * clock reading the source takes from `datetime.now()` is a parameter.
 */
module TicketController {
  import opened Wrappers
  import opened Ledger
  import opened Slots

  /**
   * The fields of the ticket form that `crear_turno` reads. `oficina` is None
   * when the submitted value is missing or not an integer; `nivel` and
   * `asunto` are None when missing.
   */
  datatype TicketForm = TicketForm(
    oficina: Option<int>,
    curp: string,
    data: PersonalData,
    nivel: Option<int>,
    asunto: Option<int>)

  /** Why `crear_turno` returned its error string. */
  datatype IssueError =
    | InvalidOfficeId   // int(form['oficina']) raised
    | NoAvailability    // the finder found no slot
    | UnknownOffice     // no `oficinas_regionales` row for the id
    | IntegrityError    // the insert violates NOT NULL, a foreign key or `codigo_qr UNIQUE`

  /** The fields of the edit form that `actualizar_turno` reads (None: missing or not an integer). */
  datatype EditForm = EditForm(
    requesterId: Option<int>,
    ticketId: Option<int>,
    curp: string,
    data: PersonalData,
    nivel: Option<int>,
    oficina: Option<int>,
    asunto: Option<int>)

  /** The value of a municipality's counter; a missing row counts as 0. */
  function CounterValue(counters: map<int, int>, muni: int): int
  {
    if muni in counters then counters[muni] else 0
  }

  /** The position of the requester with `curp` (the lookup by CURP). */
  function FindRequester(requesters: seq<Requester>, curp: string): (r: Option<nat>)
    ensures r.Some? ==> r.value < |requesters| && requesters[r.value].curp == curp
    ensures r.Some? ==> forall i :: 0 <= i < r.value ==> requesters[i].curp != curp
    ensures r.None? ==> forall i :: 0 <= i < |requesters| ==> requesters[i].curp != curp
  {
    if requesters == [] then None
    else if requesters[0].curp == curp then Some(0)
    else
      match FindRequester(requesters[1..], curp)
      case None => None
      case Some(k) => Some(k + 1)
  }

  /** The ticket row the database accepts at commit: level and subject given and known, `codigo_qr` fresh. */
  predicate CommitAccepted(tickets: seq<Ticket>, levels: set<int>, subjects: set<int>, form: TicketForm)
  {
    && form.nivel.Some? && form.nivel.value in levels
    && form.asunto.Some? && form.asunto.value in subjects
    && !QrTaken(tickets, form.curp)
  }

  /** A ticket's references name existing rows. */
  predicate RefsOk(t: Ticket, requesterCount: nat, offices: map<int, int>, levels: set<int>, subjects: set<int>)
  {
    t.requester < requesterCount && t.office in offices && t.level in levels && t.subject in subjects
  }

  /**
   * Folio discipline: every ticket's number is at most its municipality's
   * counter, and no two tickets of one municipality share a number.
   */
  ghost predicate FoliosOk(tickets: seq<Ticket>, offices: map<int, int>, counters: map<int, int>)
  {
    && (forall i :: 0 <= i < |tickets| ==>
          tickets[i].office in offices && offices[tickets[i].office] in counters
          && tickets[i].numero <= counters[offices[tickets[i].office]])
    && (forall i, j :: 0 <= i < j < |tickets| && tickets[i].office in offices && tickets[j].office in offices
          && offices[tickets[i].office] == offices[tickets[j].office]
          ==> tickets[i].numero != tickets[j].numero)
  }

  /** Issuing the counter's next value keeps the folio discipline. */
  lemma NextFolioKeepsFoliosOk(tickets: seq<Ticket>, offices: map<int, int>, counters: map<int, int>, t: Ticket)
    requires FoliosOk(tickets, offices, counters)
    requires t.office in offices
    requires t.numero == CounterValue(counters, offices[t.office]) + 1
    ensures FoliosOk(tickets + [t], offices, counters[offices[t.office] := t.numero])
  {
    var muni := offices[t.office];
    var ts := tickets + [t];
    var cs := counters[muni := t.numero];
    forall i | 0 <= i < |ts|
      ensures ts[i].office in offices && offices[ts[i].office] in cs && ts[i].numero <= cs[offices[ts[i].office]]
    {
      if i < |tickets| {
        assert ts[i] == tickets[i];
      }
    }
    forall i, j | 0 <= i < j < |ts| && ts[i].office in offices && ts[j].office in offices &&
        offices[ts[i].office] == offices[ts[j].office]
      ensures ts[i].numero != ts[j].numero
    {
      assert ts[i] == tickets[i];
      if j == |tickets| {
        assert tickets[i].numero <= counters[muni];
      } else {
        assert ts[j] == tickets[j];
      }
    }
  }

  /** A ticket `eliminar_turno_publico` may cancel: number and CURP match, and it is pending. */
  predicate CancelMatch(t: Ticket, requesters: seq<Requester>, numero: int, curp: string)
  {
    t.numero == numero && t.requester < |requesters| && requesters[t.requester].curp == curp && t.estado == Pendiente
  }

  function FindPendingFrom(tickets: seq<Ticket>, requesters: seq<Requester>, numero: int, curp: string, k: nat): (r: Option<nat>)
    requires k <= |tickets|
    ensures r.Some? ==> k <= r.value < |tickets| && CancelMatch(tickets[r.value], requesters, numero, curp)
    ensures r.Some? ==> forall j :: k <= j < r.value ==> !CancelMatch(tickets[j], requesters, numero, curp)
    ensures r.None? ==> forall j :: k <= j < |tickets| ==> !CancelMatch(tickets[j], requesters, numero, curp)
    decreases |tickets| - k
  {
    if k == |tickets| then None
    else if CancelMatch(tickets[k], requesters, numero, curp) then Some(k)
    else FindPendingFrom(tickets, requesters, numero, curp, k + 1)
  }

  /**
   * The query of `eliminar_turno_publico`. The query has no ordering, so
   * when several rows match the database picks one; the model takes the one
   * with the lowest id.
   */
  function FindPending(tickets: seq<Ticket>, requesters: seq<Requester>, numero: int, curp: string): Option<nat>
  {
    FindPendingFrom(tickets, requesters, numero, curp, 0)
  }

  /** The text of a status as stored in `turnos.estado`. */
  function EstadoName(e: Estado): string
  {
    match e
    case Pendiente => "pendiente"
    case Resuelto => "resuelto"
    case Cancelado => "cancelado"
  }

  /** The statuses `cambiar_estado_turno` accepts: 'pendiente' and 'resuelto' only. */
  function AdminStatus(nuevo: string): (r: Option<Estado>)
    ensures r.Some? <==> nuevo == "pendiente" || nuevo == "resuelto"
    ensures r.Some? ==> EstadoName(r.value) == nuevo && r.value != Cancelado
  {
    if nuevo == "pendiente" then Some(Pendiente)
    else if nuevo == "resuelto" then Some(Resuelto)
    else None
  }

  /** The admin soft delete asks for 'cancelado', which the whitelist refuses. */
  lemma AdminStatusRefusesCancel()
    ensures AdminStatus(EstadoName(Cancelado)) == None
  {
  }

  /** The table constraints, and schedule rows that close at 00:30 or later. */
  ghost predicate StoreOk(schedules: Schedules, offices: map<int, int>, levels: set<int>, subjects: set<int>,
                          requesters: seq<Requester>, tickets: seq<Ticket>)
  {
    && (forall k :: k in schedules ==> HoursOk(schedules[k]))
    && CurpsUnique(requesters)
    && QrUnique(tickets)
    && (forall i :: 0 <= i < |tickets| ==> RefsOk(tickets[i], |requesters|, offices, levels, subjects))
  }

  /** Upserting the requester and appending a ticket with a fresh QR code and known references keeps the constraints. */
  lemma UpsertAppendKeepsStoreOk(schedules: Schedules, offices: map<int, int>, levels: set<int>, subjects: set<int>,
                                 requesters: seq<Requester>, tickets: seq<Ticket>, data: PersonalData, t: Ticket)
    requires StoreOk(schedules, offices, levels, subjects, requesters, tickets)
    requires t.office in offices && t.level in levels && t.subject in subjects && !QrTaken(tickets, t.qr)
    requires var found := FindRequester(requesters, t.qr);
      t.requester == if found.Some? then found.value else |requesters|
    ensures var found := FindRequester(requesters, t.qr);
      var rs := if found.Some? then requesters[found.value := Requester(t.qr, data)]
                else requesters + [Requester(t.qr, data)];
      StoreOk(schedules, offices, levels, subjects, rs, tickets + [t])
  {
    var found := FindRequester(requesters, t.qr);
    var rs := if found.Some? then requesters[found.value := Requester(t.qr, data)]
              else requesters + [Requester(t.qr, data)];
    var ts := tickets + [t];
    assert |rs| >= |requesters|;
    forall i, j | 0 <= i < j < |rs| ensures rs[i].curp != rs[j].curp {
      if found.None? && j == |requesters| {
        assert rs[i] == requesters[i];
      }
    }
    forall i | 0 <= i < |ts| ensures RefsOk(ts[i], |rs|, offices, levels, subjects) {
      if i < |tickets| {
        assert ts[i] == tickets[i];
      }
    }
    forall i, j | 0 <= i < j < |ts| ensures ts[i].qr != ts[j].qr {
      if j == |tickets| {
        assert ts[i] == tickets[i] && ts[j] == t;
      }
    }
  }

  /** The three tables `crear_turno` writes. */
  datatype Tables = Tables(requesters: seq<Requester>, tickets: seq<Ticket>, counters: map<int, int>)

  /**
   * crear_turno on the tables, in the order the code makes its checks: the
   * office id, the finder, the office row, then the commit. The requester is
   * upserted by CURP, the municipality counter goes up by one and a pending
   * ticket with that number and `codigo_qr` = CURP is added at the found slot.
   */
  function Issue(schedules: Schedules, offices: map<int, int>, levels: set<int>, subjects: set<int>,
                 st: Tables, form: TicketForm, now: Instant): Result<Tables, IssueError>
    requires ValidInstant(now)
  {
    if form.oficina.None? then Failure(InvalidOfficeId)
    else
      var office := form.oficina.value;
      match NextSlot(schedules, st.tickets, office, now)
      case None => Failure(NoAvailability)
      case Some(slot) =>
        if office !in offices then Failure(UnknownOffice)
        else if !CommitAccepted(st.tickets, levels, subjects, form) then Failure(IntegrityError)
        else
          var found := FindRequester(st.requesters, form.curp);
          var rid := if found.Some? then found.value else |st.requesters|;
          var rs := if found.Some? then st.requesters[rid := Requester(form.curp, form.data)]
                    else st.requesters + [Requester(form.curp, form.data)];
          var muni := offices[office];
          var folio := CounterValue(st.counters, muni) + 1;
          var t := Ticket(folio, office, rid, slot.day, slot.minute,
                          form.nivel.value, form.asunto.value, Pendiente, form.curp);
          Success(Tables(rs, st.tickets + [t], st.counters[muni := folio]))
  }

  /**
   * What a successful issue did: the old tickets are kept and one pending
   * ticket is added at the finder's slot; it is numbered one past its
   * municipality's counter, which now holds that number; its requester row
   * holds exactly the submitted CURP and data; the requester with that CURP
   * was reused if there was one; no other requester or counter changed.
   */
  lemma IssueEffect(schedules: Schedules, offices: map<int, int>, levels: set<int>, subjects: set<int>,
                    st: Tables, form: TicketForm, now: Instant)
    requires ValidInstant(now)
    requires Issue(schedules, offices, levels, subjects, st, form, now).Success?
    ensures var st' := Issue(schedules, offices, levels, subjects, st, form, now).value;
      var slot := NextSlot(schedules, st.tickets, form.oficina.value, now);
      && slot.Some? && form.oficina.value in offices
      && |st'.tickets| == |st.tickets| + 1 && st'.tickets[..|st.tickets|] == st.tickets
      && var t := st'.tickets[|st.tickets|];
      var muni := offices[t.office];
      && t.office == form.oficina.value && t.date == slot.value.day && t.time == slot.value.minute
      && t.estado == Pendiente && t.qr == form.curp
      && t.numero == CounterValue(st.counters, muni) + 1
      && st'.counters.Keys == st.counters.Keys + {muni} && st'.counters[muni] == t.numero
      && (forall m :: m in st.counters && m != muni ==> st'.counters[m] == st.counters[m])
      && t.requester < |st'.requesters| && st'.requesters[t.requester] == Requester(form.curp, form.data)
      && ((exists i :: 0 <= i < |st.requesters| && st.requesters[i].curp == form.curp) <==>
            |st'.requesters| == |st.requesters|)
      && |st.requesters| <= |st'.requesters| <= |st.requesters| + 1
      && (forall i :: 0 <= i < |st.requesters| && i != t.requester ==> st'.requesters[i] == st.requesters[i])
  {
    var found := FindRequester(st.requesters, form.curp);
    if found.None? {
      assert forall i :: 0 <= i < |st.requesters| ==> st.requesters[i].curp != form.curp;
    }
  }

  /**
   * The failure cases in the code's order: a bad office id, then no slot,
   * then an unknown office, then a row the database refuses; anything else
   * succeeds.
   */
  lemma IssueFailures(schedules: Schedules, offices: map<int, int>, levels: set<int>, subjects: set<int>,
                      st: Tables, form: TicketForm, now: Instant)
    requires ValidInstant(now)
    ensures var r := Issue(schedules, offices, levels, subjects, st, form, now);
      && (form.oficina.None? ==> r == Failure(InvalidOfficeId))
      && (form.oficina.Some? ==>
        var slot := NextSlot(schedules, st.tickets, form.oficina.value, now);
        && (slot.None? ==> r == Failure(NoAvailability))
        && (slot.Some? && form.oficina.value !in offices ==> r == Failure(UnknownOffice))
        && (slot.Some? && form.oficina.value in offices && !CommitAccepted(st.tickets, levels, subjects, form) ==>
              r == Failure(IntegrityError))
        && (slot.Some? && form.oficina.value in offices && CommitAccepted(st.tickets, levels, subjects, form) ==>
              r.Success?))
  {
  }

  /** Issuing keeps the table constraints. */
  lemma IssueKeepsStoreOk(schedules: Schedules, offices: map<int, int>, levels: set<int>, subjects: set<int>,
                          st: Tables, form: TicketForm, now: Instant)
    requires ValidInstant(now)
    requires StoreOk(schedules, offices, levels, subjects, st.requesters, st.tickets)
    ensures var r := Issue(schedules, offices, levels, subjects, st, form, now);
      r.Success? ==> StoreOk(schedules, offices, levels, subjects, r.value.requesters, r.value.tickets)
  {
    var r := Issue(schedules, offices, levels, subjects, st, form, now);
    if r.Success? {
      var t := r.value.tickets[|st.tickets|];
      assert r.value.tickets == st.tickets + [t];
      UpsertAppendKeepsStoreOk(schedules, offices, levels, subjects, st.requesters, st.tickets, form.data, t);
    }
  }

  /** A new ticket never shares office, date and time with an earlier one. */
  lemma IssueKeepsSlotsDistinct(schedules: Schedules, offices: map<int, int>, levels: set<int>, subjects: set<int>,
                                st: Tables, form: TicketForm, now: Instant)
    requires ValidInstant(now)
    requires SlotsDistinct(st.tickets)
    ensures var r := Issue(schedules, offices, levels, subjects, st, form, now);
      r.Success? ==> SlotsDistinct(r.value.tickets)
  {
    var r := Issue(schedules, offices, levels, subjects, st, form, now);
    if r.Success? {
      var t := r.value.tickets[|st.tickets|];
      assert r.value.tickets == st.tickets + [t];
      NextSlotIsFree(schedules, st.tickets, form.oficina.value, now);
      FreeSlotKeepsSlotsDistinct(st.tickets, t);
    }
  }

  /** Issuing keeps the folio discipline: numbers stay unique per municipality and below its counter. */
  lemma IssueKeepsFoliosOk(schedules: Schedules, offices: map<int, int>, levels: set<int>, subjects: set<int>,
                           st: Tables, form: TicketForm, now: Instant)
    requires ValidInstant(now)
    requires FoliosOk(st.tickets, offices, st.counters)
    ensures var r := Issue(schedules, offices, levels, subjects, st, form, now);
      r.Success? ==> FoliosOk(r.value.tickets, offices, r.value.counters)
  {
    var r := Issue(schedules, offices, levels, subjects, st, form, now);
    if r.Success? {
      var t := r.value.tickets[|st.tickets|];
      assert r.value.tickets == st.tickets + [t];
      NextFolioKeepsFoliosOk(st.tickets, offices, st.counters, t);
    }
  }

  /** What `actualizar_turno` needs to commit: both rows exist, every key is given and known, the CURP is free. */
  predicate EditAccepted(form: EditForm, requesters: seq<Requester>, tickets: seq<Ticket>,
                         offices: map<int, int>, levels: set<int>, subjects: set<int>)
  {
    && form.requesterId.Some? && 0 <= form.requesterId.value < |requesters|
    && form.ticketId.Some? && 0 <= form.ticketId.value < |tickets|
    && form.nivel.Some? && form.nivel.value in levels
    && form.oficina.Some? && form.oficina.value in offices
    && form.asunto.Some? && form.asunto.value in subjects
    && forall j :: 0 <= j < |requesters| && j != form.requesterId.value ==> requesters[j].curp != form.curp
  }

  /**
   * The database state the controller works on: schedule rows, offices with
   * their municipality, the level and subject catalogs, requesters, tickets
   * and the per-municipality counters (`contador_turnos.ultimo_turno`).
   */
  class Store {
    var schedules: Schedules
    var offices: map<int, int>
    var levels: set<int>
    var subjects: set<int>
    var requesters: seq<Requester>
    var tickets: seq<Ticket>
    var counters: map<int, int>

    ghost predicate Valid()
      reads this
    {
      StoreOk(schedules, offices, levels, subjects, requesters, tickets)
    }

    constructor (schedules: Schedules, offices: map<int, int>, levels: set<int>, subjects: set<int>)
      requires forall k :: k in schedules ==> HoursOk(schedules[k])
      ensures Valid()
      ensures this.schedules == schedules && this.offices == offices
      ensures this.levels == levels && this.subjects == subjects
      ensures requesters == [] && tickets == [] && counters == map[]
    {
      this.schedules := schedules;
      this.offices := offices;
      this.levels := levels;
      this.subjects := subjects;
      requesters := [];
      tickets := [];
      counters := map[];
    }

    /** The inner walk of `_encontrar_proximo_horario`: the first free start from `start` to `last`. */
    method FirstFreeStart(office: int, date: int, start: int, last: int) returns (r: Option<int>)
      ensures r == ScanSlots(tickets, office, date, start, last)
    {
      var slot := start;
      while slot <= last
        invariant start <= slot
        invariant ScanSlots(tickets, office, date, start, last) == ScanSlots(tickets, office, date, slot, last)
        decreases last - slot
      {
        if !Occupied(tickets, office, date, slot) {
          return Some(slot);
        }
        slot := slot + SlotMinutes;
      }
      return None;
    }

    /**
     * One iteration of the day loop of `_encontrar_proximo_horario`: the
     * schedule row, the capacity check, then the walk over the window.
     */
    method FreeStartOn(office: int, date: int, o: Origin) returns (found: Option<int>)
      ensures found == ScanDay(schedules, tickets, office, date, o)
    {
      found := None;
      var key := (office, DayKey(date));
      if key in schedules {
        var h := schedules[key];
        var count := CountOnDate(tickets, office, date);
        if count < h.maxPerDay {
          var last := h.close - SlotMinutes;
          var start := if date == o.today then Max(o.from.minute, h.open) else h.open;
          if start <= last {
            found := FirstFreeStart(office, date, start, last);
          }
        }
      }
    }

    /** _encontrar_proximo_horario: the next free slot of `office` at clock reading `now`. */
    method FindNextSlot(office: int, now: Instant) returns (r: Option<Moment>)
      requires ValidInstant(now)
      ensures r == NextSlot(schedules, tickets, office, now)
    {
      var inicio := RoundUpTime(now);
      var o := Origin(now.day, inicio);
      var i := 0;
      while i < HorizonDays
        invariant 0 <= i <= HorizonDays
        invariant NextSlot(schedules, tickets, office, now) == ScanDays(schedules, tickets, office, o, i)
      {
        var date := inicio.day + i;
        var found := FreeStartOn(office, date, o);
        if found.Some? {
          return Some(Moment(date, found.value));
        }
        i := i + 1;
      }
      return None;
    }

    /** crear_turno: all or nothing; the tables end as `Issue` says, and on failure are unchanged. */
    method CreateTicket(form: TicketForm, now: Instant) returns (r: Result<nat, IssueError>)
      requires Valid() && ValidInstant(now)
      modifies this`requesters, this`tickets, this`counters
      ensures Valid()
      ensures match Issue(schedules, offices, levels, subjects, old(Tables(requesters, tickets, counters)), form, now)
        case Failure(e) =>
          r == Failure(e) && requesters == old(requesters) && tickets == old(tickets) && counters == old(counters)
        case Success(st) =>
          r == Success(|old(tickets)|) && Tables(requesters, tickets, counters) == st
    {
      ghost var st := Tables(requesters, tickets, counters);
      IssueKeepsStoreOk(schedules, offices, levels, subjects, st, form, now);
      if form.oficina.None? {
        return Failure(InvalidOfficeId);
      }
      var office := form.oficina.value;
      var slot := FindNextSlot(office, now);
      if slot.None? {
        return Failure(NoAvailability);
      }
      var found := FindRequester(requesters, form.curp);
      var rid: nat;
      var newRequesters: seq<Requester>;
      if found.Some? {
        rid := found.value;
        newRequesters := requesters[rid := Requester(form.curp, form.data)];
      } else {
        rid := |requesters|;
        newRequesters := requesters + [Requester(form.curp, form.data)];
      }
      if office !in offices {
        return Failure(UnknownOffice);
      }
      var muni := offices[office];
      var folio := CounterValue(counters, muni) + 1;
      if !CommitAccepted(tickets, levels, subjects, form) {
        return Failure(IntegrityError);
      }
      var t := Ticket(folio, office, rid, slot.value.day, slot.value.minute,
                      form.nivel.value, form.asunto.value, Pendiente, form.curp);
      requesters := newRequesters;
      counters := counters[muni := folio];
      tickets := tickets + [t];
      r := Success(|tickets| - 1);
    }

    /**
     * cambiar_estado_turno: sets 'pendiente' or 'resuelto' on an existing ticket,
     * whatever its current status; any other status or id changes nothing.
     */
    method ChangeStatus(id: int, nuevo: string) returns (ok: bool)
      requires Valid()
      modifies this`tickets
      ensures Valid()
      ensures ok <==> AdminStatus(nuevo).Some? && 0 <= id < |old(tickets)|
      ensures tickets == if ok then old(tickets)[id := old(tickets)[id].(estado := AdminStatus(nuevo).value)]
                         else old(tickets)
    {
      var e := AdminStatus(nuevo);
      if e.None? {
        return false;
      }
      if 0 <= id < |tickets| {
        tickets := tickets[id := tickets[id].(estado := e.value)];
        return true;
      }
      return false;
    }

    /** eliminar_turno_admin: asks for 'cancelado', so it never succeeds and never changes anything. */
    method AdminDelete(id: int) returns (ok: bool)
      requires Valid()
      modifies this`tickets
      ensures Valid()
      ensures !ok && tickets == old(tickets)
    {
      AdminStatusRefusesCancel();
      ok := ChangeStatus(id, EstadoName(Cancelado));
    }

    /**
     * eliminar_turno_publico: cancels a pending ticket with that number whose
     * requester has that CURP (the one `FindPending` picks); without one,
     * nothing changes.
     */
    method PublicCancel(numero: int, curp: string) returns (ok: bool)
      requires Valid()
      modifies this`tickets
      ensures Valid()
      ensures ok <==> exists i :: 0 <= i < |old(tickets)| && CancelMatch(old(tickets)[i], requesters, numero, curp)
      ensures ok ==> var i := FindPending(old(tickets), requesters, numero, curp).value;
        old(tickets)[i].estado == Pendiente && tickets == old(tickets)[i := old(tickets)[i].(estado := Cancelado)]
      ensures !ok ==> tickets == old(tickets)
    {
      var found := FindPending(tickets, requesters, numero, curp);
      if found.None? {
        return false;
      }
      var i := found.value;
      tickets := tickets[i := tickets[i].(estado := Cancelado)];
      return true;
    }

    /**
     * actualizar_turno: overwrites the requester's fields (the CURP included)
     * and the ticket's level, office and subject; number, slot, status, QR
     * code and requester of every ticket stay as they were.
     */
    method UpdateTicket(form: EditForm) returns (ok: bool)
      requires Valid()
      modifies this`requesters, this`tickets
      ensures Valid()
      ensures ok <==> EditAccepted(form, old(requesters), old(tickets), offices, levels, subjects)
      ensures ok ==>
        var rid := form.requesterId.value;
        var tid := form.ticketId.value;
        && requesters == old(requesters)[rid := Requester(form.curp, form.data)]
        && tickets == old(tickets)[tid := old(tickets)[tid].(level := form.nivel.value, office := form.oficina.value,
                                                             subject := form.asunto.value)]
      ensures !ok ==> requesters == old(requesters) && tickets == old(tickets)
      ensures |tickets| == |old(tickets)|
      ensures forall i :: 0 <= i < |tickets| ==>
        && tickets[i].numero == old(tickets)[i].numero
        && tickets[i].date == old(tickets)[i].date && tickets[i].time == old(tickets)[i].time
        && tickets[i].estado == old(tickets)[i].estado && tickets[i].qr == old(tickets)[i].qr
        && tickets[i].requester == old(tickets)[i].requester
    {
      if !EditAccepted(form, requesters, tickets, offices, levels, subjects) {
        return false;
      }
      var rid := form.requesterId.value;
      var tid := form.ticketId.value;
      requesters := requesters[rid := Requester(form.curp, form.data)];
      tickets := tickets[tid := tickets[tid].(level := form.nivel.value, office := form.oficina.value,
                                              subject := form.asunto.value)];
      return true;
    }
  }

  /** Moving a ticket to another office in an edit can put two tickets on one slot. */
  lemma EditCanDoubleBook()
    ensures exists ts: seq<Ticket> :: |ts| == 2 && SlotsDistinct(ts) && !SlotsDistinct(ts[1 := ts[1].(office := ts[0].office)])
  {
    var a := Ticket(1, 1, 0, 738886, 540, 1, 1, Pendiente, "A");
    var b := Ticket(1, 2, 1, 738886, 540, 1, 1, Pendiente, "B");
    var ts := [a, b];
    var moved := ts[1 := ts[1].(office := ts[0].office)];
    assert SlotsDistinct(ts);
    assert moved[0].office == moved[1].office && moved[0].date == moved[1].date && moved[0].time == moved[1].time;
    assert |ts| == 2 && SlotsDistinct(ts) && !SlotsDistinct(moved);
  }
}
