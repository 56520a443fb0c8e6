/** The admin calendar: the locally stored appointments grouped by day. A
    day is identified by its `YYYY-MM-DD` key; the month view marks days
    that have appointments and draws one dot per appointment. */
module AppointmentsCalendar {
  import opened Optional
  import Seqs
  import AppointmentsCrud

  type Appointment = AppointmentsCrud.Appointment

  /** The views the calendar widget renders tiles for. */
  datatype View = Month | Year | Decade | Century

  /** One coloured dot on a day tile, with its hover text. */
  datatype Dot = Dot(color: string, title: string)

  function OnDate(key: string): Appointment -> bool
  {
    (a: Appointment) => a.date == key
  }

  /** How many appointments fall on the day, counted one by one. */
  function CountOn(apps: seq<Appointment>, key: string): nat
  {
    Seqs.CountWhere(apps, OnDate(key))
  }

  /** The appointments on the day `key`: exactly those whose date equals the
      key, in their stored order, one per appointment on that day. */
  function AppointmentsForDate(apps: seq<Appointment>, key: string): (r: seq<Appointment>)
    ensures forall a :: a in r <==> a in apps && a.date == key
    ensures Seqs.IsSubsequence(r, apps)
    ensures |r| == CountOn(apps, key)
  {
    Seqs.FilterIsSubsequence(apps, OnDate(key));
    Seqs.FilterLength(apps, OnDate(key));
    Seqs.Filter(apps, OnDate(key))
  }

  /** The date of each appointment, in order. */
  function DatesOf(apps: seq<Appointment>): (r: seq<string>)
    ensures |r| == |apps| && forall i :: 0 <= i < |apps| ==> r[i] == apps[i].date
  {
    Seqs.Map(apps, (a: Appointment) => a.date)
  }

  /** Gathering one more appointment's date adds it at the end unless it is
      already there. */
  lemma DatesStep(apps: seq<Appointment>, i: nat)
    requires i < |apps|
    ensures var before := Seqs.Dedup(DatesOf(apps[..i]));
      Seqs.Dedup(DatesOf(apps[..i + 1])) ==
        if apps[i].date in before then before else before + [apps[i].date]
  {
    var next := DatesOf(apps[..i + 1]);
    assert next[..|next| - 1] == DatesOf(apps[..i]);
  }

  /** Every day that has an appointment, each once, in order of first
      appearance: the dates gathered into a set one appointment at a time. */
  method DatesWithAppointments(apps: seq<Appointment>) returns (dates: seq<string>)
    ensures dates == Seqs.Dedup(DatesOf(apps))
    ensures Seqs.NoDuplicates(dates)
    ensures forall d :: d in dates <==> exists i :: 0 <= i < |apps| && apps[i].date == d
  {
    var seen: set<string> := {};
    dates := [];
    for i := 0 to |apps|
      invariant dates == Seqs.Dedup(DatesOf(apps[..i]))
      invariant forall d :: d in seen <==> d in dates
    {
      var d := apps[i].date;
      DatesStep(apps, i);
      if d !in seen {
        seen := seen + {d};
        dates := dates + [d];
      }
    }
    assert apps[..|apps|] == apps;
    assert forall d :: d in DatesOf(apps) <==> exists i :: 0 <= i < |apps| && apps[i].date == d;
  }

  /** The CSS class of a day tile: `has-appointments` in the month view when
      at least one appointment falls on that day, and none otherwise. */
  function TileClassName(apps: seq<Appointment>, key: string, view: View): (r: Option<string>)
    ensures r.Some? <==> view == Month && exists a :: a in apps && a.date == key
    ensures r.Some? ==> r.value == "has-appointments"
  {
    if view == Month && |AppointmentsForDate(apps, key)| > 0 then
      assert AppointmentsForDate(apps, key)[0] in AppointmentsForDate(apps, key);
      Some("has-appointments")
    else
      None
  }

  /** The dot drawn for one appointment: its status colour, and its name and
      service as hover text. */
  function DotFor(a: Appointment): (d: Dot)
    ensures AppointmentsCrud.IsHexColor(d.color)
    ensures |d.title| == |a.name| + 3 + |a.service|
    ensures d.color == AppointmentsCrud.StatusColor(a.status)
    ensures d.title[..|a.name|] == a.name && d.title[|a.name| + 3..] == a.service
    ensures d.title[|a.name|..|a.name| + 3] == " - "
  {
    Dot(AppointmentsCrud.StatusColor(a.status), a.name + " - " + a.service)
  }

  /** The content of a day tile: in the month view, one dot per appointment on
      that day when there is at least one; nothing otherwise. */
  function TileContent(apps: seq<Appointment>, key: string, view: View): (r: Option<seq<Dot>>)
    ensures r.Some? <==> view == Month && exists a :: a in apps && a.date == key
    ensures r.Some? ==> |r.value| == CountOn(apps, key) && |r.value| > 0
    ensures r.Some? ==> forall dot :: dot in r.value ==> exists a :: a in apps && a.date == key && dot == DotFor(a)
    ensures r.Some? ==> forall i :: 0 <= i < |r.value| ==> r.value[i] == DotFor(AppointmentsForDate(apps, key)[i])
  {
    var day := AppointmentsForDate(apps, key);
    if view == Month && |day| > 0 then
      assert day[0] in day;
      var dots := Seqs.Map(day, DotFor);
      assert forall dot :: dot in dots ==> exists a :: a in day && dot == DotFor(a) by {
        forall dot | dot in dots ensures exists a :: a in day && dot == DotFor(a) {
          var i :| 0 <= i < |dots| && dots[i] == dot;
          assert day[i] in day;
        }
      }
      Some(dots)
    else
      None
  }

  /** Two dots share a colour exactly when their appointments share a status. */
  lemma DotColorsFollowStatus(a: Appointment, b: Appointment)
    ensures DotFor(a).color == DotFor(b).color <==> a.status == b.status
  {
    AppointmentsCrud.StatusBadgesDistinct(a.status, b.status);
  }

  /** A day's tile is marked exactly when it carries dots. */
  lemma MarkedIffDotted(apps: seq<Appointment>, key: string, view: View)
    ensures TileClassName(apps, key, view).Some? <==> TileContent(apps, key, view).Some?
  {
  }

  /** The state of the calendar panel. */
  class CalendarView {
    var appointments: seq<Appointment>
    /** The key of the selected day. */
    var selectedDate: string
    /** The appointments listed under the calendar. */
    var selectedDateAppointments: seq<Appointment>

    /** The panel as mounted: today selected, nothing listed yet. */
    constructor (saved: seq<Appointment>, today: string)
      ensures appointments == saved && selectedDate == today && selectedDateAppointments == []
    {
      appointments := saved;
      selectedDate := today;
      selectedDateAppointments := [];
    }

    /** Selecting a day lists that day's appointments. */
    method HandleDateChange(key: string)
      modifies this
      ensures selectedDate == key
      ensures selectedDateAppointments == AppointmentsForDate(appointments, key)
      ensures appointments == old(appointments)
    {
      selectedDate := key;
      var day := AppointmentsForDate(appointments, key);
      selectedDateAppointments := day;
    }
  }
}
