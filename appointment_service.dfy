/** The appointment service over the hosted `appointments` table. The table
    is held here as an in-memory list of rows; each filtered query is a
    filter over that list and each call runs to completion before the next.
    A call that cannot reach the store is told so by a `fault` parameter. */
module AppointmentService {
  import opened Optional
  import Seqs

  datatype Service = Brackets | Protesis | Endodoncias | Implantes

  datatype Status = Pendiente | Confirmada | Completada | Cancelada

  /** The fields the caller supplies for a new appointment. */
  datatype AppointmentData = AppointmentData(
    patientName: string,
    patientEmail: string,
    patientPhone: string,
    service: Service,
    date: string,
    time: string,
    status: Status,
    notes: string,
    createdBy: Option<string>,
    updatedBy: Option<string>)

  /** A stored row: the supplied fields plus the key, the running appointment
      number and the two instants the store assigns. */
  datatype Appointment = Appointment(
    id: string,
    numeroCita: nat,
    createdAt: nat,
    updatedAt: nat,
    data: AppointmentData)

  /** What the per-date lookup selects from each row. */
  datatype TimeSlot = TimeSlot(time: string, status: Status)

  datatype ServiceError =
    | SlotTaken     // the booking pre-check found an active appointment in the slot
    | NotSingleRow  // a single-row query matched no row (or more than one)
    | StoreError    // the store could not be reached or rejected the call

  /** Where, if anywhere, a booking's two store calls fail. */
  datatype Fault = NoFault | CheckFails | InsertFails

  const SlotTakenMessage := "Ya existe una cita en este horario. Por favor, selecciona otro horario."

  /** The message the service itself raises: only a held slot has one; store
      failures pass the store's own error on. */
  function OwnMessage(e: ServiceError): (m: Option<string>)
    ensures m.Some? <==> e == SlotTaken
    ensures m.Some? ==> |m.value| > 0
  {
    if e == SlotTaken then Some(SlotTakenMessage) else None
  }

  /** Pending and confirmed appointments hold their slot; completed and
      cancelled ones free it. */
  predicate IsActive(s: Status)
  {
    s == Pendiente || s == Confirmada
  }

  predicate HoldsSlot(a: Appointment, date: string, time: string)
  {
    a.data.date == date && a.data.time == time && IsActive(a.data.status)
  }

  function Holding(date: string, time: string): Appointment -> bool
  {
    (a: Appointment) => HoldsSlot(a, date, time)
  }

  function HasId(id: string): Appointment -> bool
  {
    (a: Appointment) => a.id == id
  }

  function IdOf(a: Appointment): string
  {
    a.id
  }

  function CreatedAt(a: Appointment): int
  {
    a.createdAt
  }

  /** The store's primary key: no two rows share an id. */
  ghost predicate UniqueIds(rows: seq<Appointment>)
  {
    Seqs.KeysDistinct(rows, IdOf)
  }

  /** The intended booking rule: no two active appointments share a date and time. */
  ghost predicate NoDoubleBooking(rows: seq<Appointment>)
  {
    forall i, j :: 0 <= i < j < |rows| && HoldsSlot(rows[i], rows[j].data.date, rows[j].data.time) ==>
      !IsActive(rows[j].data.status)
  }

  /** The booking pre-check's query: the active rows in this slot. */
  function Conflicts(rows: seq<Appointment>, date: string, time: string): (r: seq<Appointment>)
    ensures forall a :: a in r <==> a in rows && HoldsSlot(a, date, time)
    ensures r == [] <==> forall a :: a in rows ==> !HoldsSlot(a, date, time)
  {
    var r := Seqs.Filter(rows, Holding(date, time));
    assert r != [] ==> r[0] in r;
    r
  }

  /** The outcome of a booking and the table after it. */
  datatype Booking = Booking(result: Result<Appointment, ServiceError>, rows: seq<Appointment>)

  /** A booking: it succeeds exactly when both store calls go through and no
      active appointment holds the slot, and then appends one row carrying
      the supplied data; any failure leaves the table as it was, and a held
      slot is reported as such whenever the pre-check ran. */
  function Book(rows: seq<Appointment>, data: AppointmentData, id: string, numero: nat, now: nat, fault: Fault)
    : (b: Booking)
    ensures b.result.Success? <==> fault == NoFault && forall a :: a in rows ==> !HoldsSlot(a, data.date, data.time)
    ensures b.result.Failure? ==> b.rows == rows
    ensures b.result.Failure? ==>
      (b.result.error == SlotTaken <==>
        fault != CheckFails && exists a :: a in rows && HoldsSlot(a, data.date, data.time))
    ensures b.result.Success? ==>
      && b.rows == rows + [b.result.value]
      && b.result.value.data == data && b.result.value.id == id && b.result.value.numeroCita == numero
      && b.result.value.createdAt == now && b.result.value.updatedAt == now
  {
    var clash := Conflicts(rows, data.date, data.time);
    if fault == CheckFails then Booking(Failure(StoreError), rows)
    else if clash != [] then Booking(Failure(SlotTaken), rows)
    else if fault == InsertFails then Booking(Failure(StoreError), rows)
    else
      assert fault == NoFault;
      assert forall a :: a in rows ==> !HoldsSlot(a, data.date, data.time);
      var row := Appointment(id, numero, now, now, data);
      Booking(Success(row), rows + [row])
  }

  /** A successful booking keeps the table free of double bookings. */
  lemma BookingKeepsSlotsSingle(rows: seq<Appointment>, data: AppointmentData, id: string, numero: nat, now: nat, fault: Fault)
    requires NoDoubleBooking(rows)
    ensures NoDoubleBooking(Book(rows, data, id, numero, now, fault).rows)
  {
    var b := Book(rows, data, id, numero, now, fault);
    if b.result.Success? {
      var after := b.rows;
      forall i, j | 0 <= i < j < |after| && HoldsSlot(after[i], after[j].data.date, after[j].data.time)
        ensures !IsActive(after[j].data.status)
      {
        assert after[i] == rows[i];
        if j < |rows| {
          assert after[j] == rows[j];
        }
      }
    }
  }

  /** Completed and cancelled appointments never block a booking: if they are
      all the slot holds, a booking that reaches the store succeeds. */
  lemma FreedSlotsDoNotBlock(rows: seq<Appointment>, data: AppointmentData, id: string, numero: nat, now: nat)
    requires forall a :: a in rows && a.data.date == data.date && a.data.time == data.time ==>
      a.data.status == Completada || a.data.status == Cancelada
    ensures Book(rows, data, id, numero, now, NoFault).result.Success?
  {
  }

  /** Booking the same active slot twice in a row: the second call fails as
      taken, and the table keeps exactly one active appointment there. */
  lemma {:induction false} SecondBookingOfSlotFails(
    rows: seq<Appointment>, data: AppointmentData, id: string, numero: nat, now: nat,
    again: AppointmentData, id2: string, numero2: nat, later: nat, fault2: Fault)
    requires Book(rows, data, id, numero, now, NoFault).result.Success?
    requires IsActive(data.status)
    requires again.date == data.date && again.time == data.time
    requires fault2 != CheckFails
    ensures var first := Book(rows, data, id, numero, now, NoFault);
      var second := Book(first.rows, again, id2, numero2, later, fault2);
      && second.result == Failure(SlotTaken)
      && second.rows == first.rows
      && |Conflicts(second.rows, data.date, data.time)| == 1
  {
    var first := Book(rows, data, id, numero, now, NoFault);
    var row := first.result.value;
    assert HoldsSlot(row, data.date, data.time);
    assert row in first.rows;
    Seqs.FilterConcat(rows, [row], Holding(data.date, data.time));
    assert Conflicts(rows, data.date, data.time) == [];
    assert Seqs.Filter([row], Holding(data.date, data.time)) == [row];
  }

  /** The slots the per-date lookup reports for a day: the time and status of
      each active row on that day, and nothing else. */
  function SlotsOn(rows: seq<Appointment>, date: string): (r: seq<TimeSlot>)
    ensures forall s :: s in r ==> IsActive(s.status)
    ensures forall a :: a in rows && a.data.date == date && IsActive(a.data.status) ==>
      TimeSlot(a.data.time, a.data.status) in r
    ensures forall s :: s in r ==> exists a :: a in rows && a.data.date == date && s == TimeSlot(a.data.time, a.data.status)
  {
    var day := Seqs.Filter(rows, (a: Appointment) => a.data.date == date && IsActive(a.data.status));
    var r := Seqs.Map(day, (a: Appointment) => TimeSlot(a.data.time, a.data.status));
    assert forall a :: a in day ==> TimeSlot(a.data.time, a.data.status) in r by {
      forall a | a in day ensures TimeSlot(a.data.time, a.data.status) in r {
        var i :| 0 <= i < |day| && day[i] == a;
        assert r[i] == TimeSlot(a.data.time, a.data.status);
      }
    }
    assert forall s :: s in r ==> exists a :: a in day && s == TimeSlot(a.data.time, a.data.status) by {
      forall s | s in r ensures exists a :: a in day && s == TimeSlot(a.data.time, a.data.status) {
        var i :| 0 <= i < |r| && r[i] == s;
        assert day[i] in day;
      }
    }
    r
  }

  /** Once a booking in an active status succeeds, the per-date lookup for
      that day reports its time as occupied. */
  lemma BookedSlotIsReported(rows: seq<Appointment>, data: AppointmentData, id: string, numero: nat, now: nat)
    requires Book(rows, data, id, numero, now, NoFault).result.Success?
    requires IsActive(data.status)
    ensures TimeSlot(data.time, data.status) in SlotsOn(Book(rows, data, id, numero, now, NoFault).rows, data.date)
  {
    var b := Book(rows, data, id, numero, now, NoFault);
    assert b.result.value in b.rows;
  }

  /** The table after a status change of `id`: same rows in the same order;
      the matching rows take the new status and update instant, and nothing
      else about any row changes. */
  function WithStatus(rows: seq<Appointment>, id: string, status: Status, now: nat): (r: seq<Appointment>)
    ensures |r| == |rows|
    ensures forall i :: 0 <= i < |rows| && rows[i].id == id ==>
      r[i] == rows[i].(data := rows[i].data.(status := status), updatedAt := now)
    ensures forall i :: 0 <= i < |rows| && rows[i].id != id ==> r[i] == rows[i]
  {
    Seqs.Map(rows, (a: Appointment) => if a.id == id then a.(data := a.data.(status := status), updatedAt := now) else a)
  }

  /** A status update keeps every row's id, so the primary key still holds. */
  lemma StatusUpdateKeepsKey(rows: seq<Appointment>, id: string, status: Status, now: nat)
    requires UniqueIds(rows)
    ensures UniqueIds(WithStatus(rows, id, status, now))
  {
    var u := WithStatus(rows, id, status, now);
    assert forall i :: 0 <= i < |rows| ==> IdOf(u[i]) == IdOf(rows[i]);
  }

  /** After a status update the same ids exist, and the rows with the
      updated id carry the new status and instant. */
  lemma StatusUpdateFindsRow(rows: seq<Appointment>, id: string, status: Status, now: nat)
    ensures var u := WithStatus(rows, id, status, now);
      (exists a :: a in u && a.id == id) <==> (exists a :: a in rows && a.id == id)
    ensures forall a :: a in WithStatus(rows, id, status, now) && a.id == id ==>
      a.data.status == status && a.updatedAt == now
  {
    var u := WithStatus(rows, id, status, now);
    forall a | a in u && a.id == id ensures a.data.status == status && a.updatedAt == now {
      var i :| 0 <= i < |u| && u[i] == a;
    }
    if exists a :: a in u && a.id == id {
      var a :| a in u && a.id == id;
      var i :| 0 <= i < |u| && u[i] == a;
      assert rows[i] in rows;
    }
    if exists a :: a in rows && a.id == id {
      var a :| a in rows && a.id == id;
      var i :| 0 <= i < |rows| && rows[i] == a;
      assert u[i] in u;
    }
  }

  /** A status update of an id no row has changes nothing. */
  lemma StatusUpdateOfMissingId(rows: seq<Appointment>, id: string, status: Status, now: nat)
    requires forall a :: a in rows ==> a.id != id
    ensures WithStatus(rows, id, status, now) == rows
  {
    var u := WithStatus(rows, id, status, now);
    forall i | 0 <= i < |rows| ensures u[i] == rows[i] {
      assert rows[i] in rows;
    }
  }

  /** The table after deleting `id`: exactly the other rows, each as often as
      before, in order, and the primary key still holds. */
  function WithoutAppointment(rows: seq<Appointment>, id: string): (r: seq<Appointment>)
    ensures forall a :: a in r <==> a in rows && a.id != id
    ensures forall a :: multiset(r)[a] == if a.id != id then multiset(rows)[a] else 0
    ensures Seqs.IsSubsequence(r, rows)
    ensures UniqueIds(rows) ==> UniqueIds(r)
  {
    var keep := (a: Appointment) => a.id != id;
    Seqs.FilterIsSubsequence(rows, keep);
    assert forall a :: multiset(Seqs.Filter(rows, keep))[a] == if keep(a) then multiset(rows)[a] else 0 by {
      forall a ensures multiset(Seqs.Filter(rows, keep))[a] == if keep(a) then multiset(rows)[a] else 0 {
        Seqs.FilterCount(rows, keep, a);
      }
    }
    assert UniqueIds(rows) ==> UniqueIds(Seqs.Filter(rows, keep)) by {
      if UniqueIds(rows) {
        Seqs.FilterKeepsKeysDistinct(rows, keep, IdOf);
      }
    }
    Seqs.Filter(rows, keep)
  }

  /** A trigger helper: it names the first one or two rows of a list, their
      membership and their keys, so that the proofs below can use them
      without a case split. */
  lemma LeadingRows(s: seq<Appointment>)
    ensures |s| >= 1 ==> s[0] in s && IdOf(s[0]) == s[0].id
    ensures |s| >= 2 ==> s[0] in s && s[1] in s && IdOf(s[0]) == s[0].id && IdOf(s[1]) == s[1].id
  {
  }

  /** Under the primary key, a query by id matches at most one row, and
      exactly one when some row has that id. */
  lemma {:induction false} SingleRowById(rows: seq<Appointment>, id: string)
    requires UniqueIds(rows)
    ensures |Seqs.Filter(rows, HasId(id))| <= 1
    ensures |Seqs.Filter(rows, HasId(id))| == 1 <==> exists a :: a in rows && a.id == id
  {
    var matched := Seqs.Filter(rows, HasId(id));
    Seqs.FilterKeepsKeysDistinct(rows, HasId(id), IdOf);
    LeadingRows(matched);
    if exists a :: a in rows && a.id == id {
      var a :| a in rows && a.id == id;
      assert a in matched;
    }
  }

  /** A status change does not re-run the booking check: reactivating a
      cancelled appointment whose slot has since been booked again leaves two
      active appointments in one slot. */
  lemma ReactivationCanDoubleBook()
    ensures exists rows: seq<Appointment>, id: string ::
      NoDoubleBooking(rows) && !NoDoubleBooking(WithStatus(rows, id, Pendiente, 2))
  {
    var d := AppointmentData("Ana", "ana@example.com", "600000000", Brackets, "2025-06-10", "10:00",
                             Cancelada, "Sin observaciones", None, None);
    var cancelled := Appointment("a", 1, 0, 0, d);
    var booked := Appointment("b", 2, 1, 1, d.(status := Pendiente));
    var rows := [cancelled, booked];
    var after := WithStatus(rows, "a", Pendiente, 2);
    assert HoldsSlot(after[0], after[1].data.date, after[1].data.time);
    assert NoDoubleBooking(rows);
  }

  /** The `appointments` table. */
  class AppointmentTable {
    var rows: seq<Appointment>

    ghost predicate Valid()
      reads this
    {
      UniqueIds(rows)
    }

    constructor (initial: seq<Appointment>)
      requires UniqueIds(initial)
      ensures Valid() && rows == initial
    {
      rows := initial;
    }

    /** Books an appointment: first the pre-check for an active appointment
        in the same slot, then the insert. `id`, `numero` and `now` are the
        key, running number and instant the store assigns to the new row. */
    method CreateAppointment(data: AppointmentData, id: string, numero: nat, now: nat, fault: Fault)
      returns (r: Result<Appointment, ServiceError>)
      requires Valid()
      requires forall a :: a in rows ==> a.id != id
      modifies this
      ensures Valid()
      ensures Booking(r, rows) == Book(old(rows), data, id, numero, now, fault)
    {
      if fault == CheckFails {
        return Failure(StoreError);
      }
      var existing := Conflicts(rows, data.date, data.time);
      if |existing| > 0 {
        return Failure(SlotTaken);
      }
      if fault == InsertFails {
        return Failure(StoreError);
      }
      var row := Appointment(id, numero, now, now, data);
      rows := rows + [row];
      r := Success(row);
    }

    /** Sets the status (and the update instant) of the row with this id and
        returns it; fails when no row has that id, and then changes nothing. */
    method UpdateAppointmentStatus(id: string, status: Status, now: nat, fault: bool)
      returns (r: Result<Appointment, ServiceError>)
      requires Valid()
      modifies this
      ensures Valid()
      ensures rows == if fault then old(rows) else WithStatus(old(rows), id, status, now)
      ensures r.Success? <==> !fault && exists a :: a in old(rows) && a.id == id
      ensures r.Success? ==>
        r.value in rows && r.value.id == id && r.value.data.status == status && r.value.updatedAt == now
      ensures r.Failure? ==> r.error == (if fault then StoreError else NotSingleRow) && rows == old(rows)
    {
      if fault {
        return Failure(StoreError);
      }
      StatusUpdateKeepsKey(rows, id, status, now);
      StatusUpdateFindsRow(rows, id, status, now);
      if forall a :: a in rows ==> a.id != id {
        StatusUpdateOfMissingId(rows, id, status, now);
      }
      rows := WithStatus(rows, id, status, now);
      SingleRowById(rows, id);
      var matched := Seqs.Filter(rows, HasId(id));
      LeadingRows(matched);
      if |matched| == 1 {
        r := Success(matched[0]);
      } else {
        r := Failure(NotSingleRow);
      }
    }

    /** Deletes the row with this id (none, if there is no such row). */
    method DeleteAppointment(id: string, fault: bool) returns (r: Result<(), ServiceError>)
      requires Valid()
      modifies this
      ensures Valid()
      ensures r.Success? <==> !fault
      ensures rows == if fault then old(rows) else WithoutAppointment(old(rows), id)
    {
      if fault {
        return Failure(StoreError);
      }
      rows := WithoutAppointment(rows, id);
      r := Success(());
    }

    /** The row with this id, or none when it cannot be found or the store
        cannot be reached. */
    method GetAppointmentById(id: string, fault: bool) returns (r: Option<Appointment>)
      requires Valid()
      ensures r.Some? ==> r.value in rows && r.value.id == id
      ensures r.None? <==> fault || forall a :: a in rows ==> a.id != id
    {
      if fault {
        return None;
      }
      SingleRowById(rows, id);
      var matched := Seqs.Filter(rows, HasId(id));
      if |matched| == 1 {
        assert matched[0] in matched;
        r := Some(matched[0]);
      } else {
        r := None;
      }
    }

    /** The time and status of every active appointment on this date. */
    method GetAppointmentsByDate(date: string, fault: bool) returns (r: Result<seq<TimeSlot>, ServiceError>)
      ensures r.Failure? <==> fault
      ensures r.Success? ==> r.value == SlotsOn(rows, date)
      ensures r.Success? ==> forall s :: s in r.value ==> IsActive(s.status)
    {
      if fault {
        return Failure(StoreError);
      }
      r := Success(SlotsOn(rows, date));
    }

    /** The rows with this status, newest first. */
    method GetAppointmentsByStatus(status: Status, fault: bool) returns (r: Result<seq<Appointment>, ServiceError>)
      ensures r.Failure? <==> fault
      ensures r.Success? ==> forall a :: a in r.value <==> a in rows && a.data.status == status
      ensures r.Success? ==>
        multiset(r.value) == multiset(Seqs.Filter(rows, (a: Appointment) => a.data.status == status))
      ensures r.Success? ==> Seqs.SortedDesc(r.value, CreatedAt)
    {
      if fault {
        return Failure(StoreError);
      }
      var selected := Seqs.Filter(rows, (a: Appointment) => a.data.status == status);
      var sorted := Seqs.SortDesc(selected, CreatedAt);
      forall a ensures a in sorted <==> a in selected {
        assert a in sorted <==> a in multiset(sorted);
        assert a in selected <==> a in multiset(selected);
      }
      r := Success(sorted);
    }

    /** Every row, newest first. */
    method GetAppointments(fault: bool) returns (r: Result<seq<Appointment>, ServiceError>)
      ensures r.Failure? <==> fault
      ensures r.Success? ==> multiset(r.value) == multiset(rows)
      ensures r.Success? ==> Seqs.SortedDesc(r.value, CreatedAt)
    {
      if fault {
        return Failure(StoreError);
      }
      r := Success(Seqs.SortDesc(rows, CreatedAt));
    }
  }
}
