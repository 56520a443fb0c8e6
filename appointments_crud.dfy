/** The appointments table of the admin area: a list of locally stored
    appointments (also mirrored under the `appointments` storage key), a
    status filter combined with a case-insensitive search, per-row status
    changes and deletion, and the label and colour shown for each status. */
module AppointmentsCrud {
  import Seqs
  import Text

  datatype Status = Pending | Confirmed | Completed | Cancelled

  datatype Appointment = Appointment(
    id: string,
    name: string,
    email: string,
    phone: string,
    service: string,
    date: string,
    time: string,
    message: string,
    status: Status,
    createdAt: string)

  /** The filter buttons: every status, or only one. */
  datatype StatusFilter = All | Only(status: Status)

  predicate MatchesFilter(a: Appointment, filter: StatusFilter)
  {
    filter.All? || a.status == filter.status
  }

  /** The search term, lower-cased, occurs in the lower-cased name, email or
      service. */
  predicate MatchesSearch(a: Appointment, term: string)
  {
    var t := Text.ToLower(term);
    Text.Includes(Text.ToLower(a.name), t)
    || Text.Includes(Text.ToLower(a.email), t)
    || Text.Includes(Text.ToLower(a.service), t)
  }

  predicate IsShown(a: Appointment, filter: StatusFilter, term: string)
  {
    MatchesFilter(a, filter) && MatchesSearch(a, term)
  }

  /** The rows the table shows: exactly the appointments that pass both the
      status filter and the search, each as often as it is stored, in their
      stored order. */
  function FilteredAppointments(apps: seq<Appointment>, filter: StatusFilter, term: string)
    : (r: seq<Appointment>)
    ensures forall a :: a in r <==> a in apps && MatchesFilter(a, filter) && MatchesSearch(a, term)
    ensures forall a :: multiset(r)[a] == if IsShown(a, filter, term) then multiset(apps)[a] else 0
    ensures Seqs.IsSubsequence(r, apps)
  {
    var shown := (a: Appointment) => IsShown(a, filter, term);
    Seqs.FilterIsSubsequence(apps, shown);
    assert forall a :: multiset(Seqs.Filter(apps, shown))[a] == if shown(a) then multiset(apps)[a] else 0 by {
      forall a ensures multiset(Seqs.Filter(apps, shown))[a] == if shown(a) then multiset(apps)[a] else 0 {
        Seqs.FilterCount(apps, shown, a);
      }
    }
    Seqs.Filter(apps, shown)
  }

  /** With the `all` filter only the search decides, and an empty search keeps
      everything: the two together show the whole list. */
  lemma ShowAllByDefault(apps: seq<Appointment>)
    ensures FilteredAppointments(apps, All, "") == apps
  {
    forall a | a in apps ensures IsShown(a, All, "") {
      Text.IncludesEmpty(Text.ToLower(a.name));
    }
    Seqs.FilterKeepsAll(apps, (a: Appointment) => IsShown(a, All, ""));
  }

  /** The search ignores the case of the term. */
  lemma SearchIgnoresCase(a: Appointment, term: string)
    ensures MatchesSearch(a, Text.ToLower(term)) == MatchesSearch(a, term)
  {
    Text.ToLowerIdempotent(term);
  }

  /** The list after setting appointment `id` to `status`: same length, same
      order; matching records change only their status. */
  function WithStatus(apps: seq<Appointment>, id: string, status: Status): (r: seq<Appointment>)
    ensures |r| == |apps|
    ensures forall i :: 0 <= i < |apps| && apps[i].id == id ==> r[i] == apps[i].(status := status)
    ensures forall i :: 0 <= i < |apps| && apps[i].id != id ==> r[i] == apps[i]
  {
    Seqs.Map(apps, (a: Appointment) => if a.id == id then a.(status := status) else a)
  }

  /** The list after deleting `id`: exactly the other records, each as often
      as it is stored, in order. */
  function WithoutAppointment(apps: seq<Appointment>, id: string): (r: seq<Appointment>)
    ensures forall a :: a in r <==> a in apps && a.id != id
    ensures forall a :: multiset(r)[a] == if a.id != id then multiset(apps)[a] else 0
    ensures Seqs.IsSubsequence(r, apps)
  {
    var keep := (a: Appointment) => a.id != id;
    Seqs.FilterIsSubsequence(apps, keep);
    assert forall a :: multiset(Seqs.Filter(apps, keep))[a] == if keep(a) then multiset(apps)[a] else 0 by {
      forall a ensures multiset(Seqs.Filter(apps, keep))[a] == if keep(a) then multiset(apps)[a] else 0 {
        Seqs.FilterCount(apps, keep, a);
      }
    }
    Seqs.Filter(apps, keep)
  }

  /** Two status changes in a row: the second one wins. */
  lemma {:induction false} LastStatusWins(apps: seq<Appointment>, id: string, first: Status, second: Status)
    ensures WithStatus(WithStatus(apps, id, first), id, second) == WithStatus(apps, id, second)
  {
    var once := WithStatus(apps, id, first);
    var twice := WithStatus(once, id, second);
    forall i | 0 <= i < |apps| ensures twice[i] == WithStatus(apps, id, second)[i] {
      assert once[i].id == apps[i].id;
    }
  }

  /** Deleting an appointment makes any earlier status change to it irrelevant. */
  lemma DeleteAfterStatusChange(apps: seq<Appointment>, id: string, status: Status)
    ensures WithoutAppointment(WithStatus(apps, id, status), id) == WithoutAppointment(apps, id)
  {
    Seqs.FilterAfterMap(apps, (a: Appointment) => if a.id == id then a.(status := status) else a,
                        (a: Appointment) => a.id != id);
  }

  /** The badge text of each status: a capitalised word. */
  function StatusText(s: Status): (r: string)
    ensures |r| > 0 && 'A' <= r[0] <= 'Z'
  {
    match s
    case Pending => "Pendiente"
    case Confirmed => "Confirmada"
    case Completed => "Completada"
    case Cancelled => "Cancelada"
  }

  /** `#` followed by six upper-case hexadecimal digits. */
  predicate IsHexColor(c: string)
  {
    |c| == 7 && c[0] == '#' && forall i :: 1 <= i < 7 ==> c[i] in "0123456789ABCDEF"
  }

  /** The badge (and calendar dot) colour of each status. */
  function StatusColor(s: Status): (r: string)
    ensures IsHexColor(r)
  {
    match s
    case Pending => "#F39C12"
    case Confirmed => "#2ECC71"
    case Completed => "#3498DB"
    case Cancelled => "#E74C3C"
  }

  /** No two statuses share a label or a colour, so the badge identifies the status. */
  lemma StatusBadgesDistinct(s: Status, t: Status)
    ensures StatusText(s) == StatusText(t) <==> s == t
    ensures StatusColor(s) == StatusColor(t) <==> s == t
  {
    if s != t {
      match s
      case Pending => assert StatusText(s)[0] == 'P' && StatusColor(s)[1] == 'F';
      case Confirmed => assert StatusText(s)[1] == 'o' && StatusColor(s)[1] == '2';
      case Completed => assert StatusText(s)[3] == 'p' && StatusColor(s)[1] == '3';
      case Cancelled => assert StatusText(s)[2] == 'n' && StatusColor(s)[1] == 'E';
    }
  }

  /** The state of the appointments table. */
  class AppointmentsPanel {
    var appointments: seq<Appointment>
    /** The copy under the `appointments` storage key. */
    var stored: seq<Appointment>
    var filter: StatusFilter
    var searchTerm: string

    /** The table as mounted over the list read from storage. */
    constructor (saved: seq<Appointment>)
      ensures appointments == saved && stored == saved
      ensures filter == All && searchTerm == ""
    {
      appointments, stored := saved, saved;
      filter, searchTerm := All, "";
    }

    /** The rows currently on screen. */
    function Shown(): (r: seq<Appointment>)
      reads this
      ensures forall a :: a in r <==> a in appointments && IsShown(a, filter, searchTerm)
    {
      FilteredAppointments(appointments, filter, searchTerm)
    }

    /** Sets the status of the appointments with this id, in state and storage. */
    method UpdateAppointmentStatus(id: string, status: Status)
      modifies this
      ensures appointments == WithStatus(old(appointments), id, status) && stored == appointments
      ensures filter == old(filter) && searchTerm == old(searchTerm)
    {
      var updated := WithStatus(appointments, id, status);
      appointments := updated;
      stored := updated;
    }

    /** When confirmed, removes the appointments with this id; otherwise
        nothing changes. */
    method DeleteAppointment(id: string, confirmed: bool)
      modifies this
      ensures appointments == if confirmed then WithoutAppointment(old(appointments), id) else old(appointments)
      ensures stored == if confirmed then appointments else old(stored)
      ensures filter == old(filter) && searchTerm == old(searchTerm)
    {
      if confirmed {
        var updated := WithoutAppointment(appointments, id);
        appointments := updated;
        stored := updated;
      }
    }
  }
}
