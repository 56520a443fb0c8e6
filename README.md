# Admin core of the dental-clinic site, in Dafny

This project models the administrative part of the clinic's web site and
proves properties of that model:

- **Staff accounts** (`users_crud.dfy`, module `UsersCrud`). The screen keeps
  a list of users in component state, with a copy under the `users` storage
  key. It has a create/edit form with its validator, and actions that create,
  edit, delete and activate/deactivate users.
- **Appointments table** (`appointments_crud.dfy`, module `AppointmentsCrud`).
  It shows the locally stored appointments through a status filter combined
  with a case-insensitive search. Each row can change status or be deleted.
  The module also holds the label and colour of each status.
- **Sign-in** (`login.dfy`, module `Login`). Credentials are looked up in the
  stored user list. The first active user with exactly that email and
  password is signed in and written to the `currentUser` session slot. Any
  failure shows one fixed message.
- **Calendar** (`appointments_calendar.dfy`, module `AppointmentsCalendar`).
  It groups the stored appointments by their `YYYY-MM-DD` day key. It lists
  one day's appointments, the distinct days that have any, and the dot and
  CSS class of each day tile.
- **Appointment service** (`appointment_service.dfy`, module
  `AppointmentService`). This layer sits over the hosted `appointments`
  table. Booking has a pre-check: an appointment that is pending or
  confirmed holds its date and time slot. The module also models the
  queries by date, by status and by id, status updates and deletion. The
  table is a class, `AppointmentTable`, whose field `rows` is the list of
  stored rows.

The modules share three helpers:

- `Seqs`: filter, map, count, first-occurrence de-duplication and a
  newest-first sort, each with its contract.
- `Text`: the JavaScript string operations the screens use. These are
  `trim` with the ECMAScript white-space set, `toLowerCase` and `includes`
  as substring search.
- `Optional`: `Option` and `Result`.

Browser storage, the clock, id generation, confirmation dialogs and store
failures all enter as parameters:

- A panel's `stored` field is the copy it writes to storage.
- A confirmation dialog's answer is a `confirmed` flag.
- A store call that fails is signalled by a `fault` parameter.
- The key, running number and instants the store assigns to a new row are
  parameters of the booking.

The booking rule is stated as the invariant `NoDoubleBooking`: no two
active appointments share a slot. Booking preserves it
(`BookingKeepsSlotsSingle`). A status change does not re-run the booking
check, so reactivating a cancelled appointment whose slot was booked again
breaks it. `ReactivationCanDoubleBook` exhibits such a table.

## Model

| member | source | states |
|---|---|---|
| Seqs.Filter | src/components/AppointmentsCRUD.tsx:32-37 | `Array.filter`: the result keeps exactly the elements that pass the predicate and is never longer than the input |
| Seqs.FilterIsSubsequence | src/components/UsersCRUD.tsx:186 | a filter keeps the surviving elements in their original order |
| Seqs.FilterCount | src/components/AppointmentsCRUD.tsx:32-37 | a filter keeps every passing element as many times as it occurs, and drops every failing one |
| Seqs.FilterAfterMap | src/components/UsersCRUD.tsx:184-197 | filtering after a map that changes only elements the filter drops gives the same result as filtering alone |
| Seqs.Map | src/components/UsersCRUD.tsx:166-175 | `Array.map`: one result per element, and each result is the function applied to the element at the same position |
| Seqs.Dedup | src/components/AppointmentsCalendar.tsx:41-47 | a `Set` followed by `Array.from` gives no duplicates and exactly the input's values |
| Seqs.SortDesc | src/services/appointmentService.ts:31 | ordering by `created_at` descending gives a list sorted newest first that is a permutation of the input |
| Text.Trim | src/components/UsersCRUD.tsx:124 | `trim` gives a slice of the input; everything before and after that slice is white space, the slice neither starts nor ends with white space, and it is empty exactly when the input is blank |
| Text.ToLower | src/components/AppointmentsCRUD.tsx:34-36 | `toLowerCase` maps each character to its lower-case form, position by position |
| Text.Includes | src/components/UsersCRUD.tsx:136 | `includes` holds exactly when the needle occurs at some position of the text |
| Text.IncludesEmpty | src/components/AppointmentsCRUD.tsx:34-36 | the empty needle occurs in every text, so an empty search matches every row |
| Text.IncludesChar | src/components/UsersCRUD.tsx:136 | `includes` of a one-character needle is membership of that character |
| Text.ToLowerIdempotent | src/components/AppointmentsCRUD.tsx:34-36 | lower-casing twice is lower-casing once |
| UsersCrud.AlertText | src/components/UsersCRUD.tsx:123-141 | a rejected form raises a non-empty alert, and an accepted one raises none |
| UsersCrud.ValidateForm | src/components/UsersCRUD.tsx:123-141 | the first failing check decides, in the order blank name, blank email, blank password, email without '@'; each outcome holds if and only if its condition does |
| UsersCrud.NewUser | src/components/UsersCRUD.tsx:147-155 | a new record carries the form's five fields and the clock's id and creation time |
| UsersCrud.Edited | src/components/UsersCRUD.tsx:168-176 | an edit writes the form's five fields and keeps the record's id and creation time |
| UsersCrud.UpdatedUsers | src/components/UsersCRUD.tsx:163-181 | after an edit, the list has the same length and order; records with the edited id take the form and keep id and creation time; all others are unchanged |
| UsersCrud.WithoutUser | src/components/UsersCRUD.tsx:184-189 | after a delete, the list holds exactly the records with another id, each as many times as before, in their original order |
| UsersCrud.Toggled | src/components/UsersCRUD.tsx:192-197 | a toggle flips `isActive` on the records with that id, changes nothing else in them, and leaves every other record unchanged |
| UsersCrud.ToggleTwiceRestores | src/components/UsersCRUD.tsx:192-197 | toggling the same user twice restores the list |
| UsersCrud.UpdateIsIdempotent | src/components/UsersCRUD.tsx:163-181 | saving the same edit twice equals saving it once |
| UsersCrud.DeleteAfterToggle | src/components/UsersCRUD.tsx:184-197 | a delete makes an earlier toggle of the same user irrelevant |
| UsersCrud.DeleteAfterUpdate | src/components/UsersCRUD.tsx:163-189 | a delete makes an earlier edit of the same user irrelevant |
| UsersCrud.DeleteIsIdempotent | src/components/UsersCRUD.tsx:184-189 | a second delete of the same id changes nothing |
| UsersCrud.UsersPanel.constructor | src/components/UsersCRUD.tsx:14-24 | the screen starts with the stored list, a blank form, no user being edited and the dialog closed |
| UsersCrud.UsersPanel.SaveUsers | src/components/UsersCRUD.tsx:73-76 | the list in state and the stored copy both become the new list |
| UsersCrud.UsersPanel.ResetForm | src/components/UsersCRUD.tsx:79-88 | the form becomes empty, active and receptionist, no user is being edited, and the list is untouched |
| UsersCrud.UsersPanel.OpenModal | src/components/UsersCRUD.tsx:91-105 | the dialog opens, with the form filled from the user to edit or else blank |
| UsersCrud.UsersPanel.CloseModal | src/components/UsersCRUD.tsx:108-111 | the dialog closes and the form resets |
| UsersCrud.UsersPanel.HandleInputChange | src/components/UsersCRUD.tsx:114-120 | a change event writes one form field and leaves the rest of the state as it was |
| UsersCrud.UsersPanel.CreateUser | src/components/UsersCRUD.tsx:144-160 | a valid form appends exactly one new user at the end, saves and closes the dialog; an invalid form changes nothing |
| UsersCrud.UsersPanel.UpdateUser | src/components/UsersCRUD.tsx:163-181 | with a valid form and a user being edited, the list becomes the edited list, which is saved, and the dialog closes; otherwise nothing changes |
| UsersCrud.UsersPanel.Submit | src/components/UsersCRUD.tsx:287 | the submit button edits while a user is being edited and creates otherwise; an accepted form is saved to storage, the dialog closes, the form is reset and no user is being edited; a rejected form changes nothing |
| UsersCrud.UsersPanel.DeleteUser | src/components/UsersCRUD.tsx:184-189 | a confirmed delete removes exactly the users with that id, in state and storage; an unconfirmed one changes nothing |
| UsersCrud.UsersPanel.ToggleUserStatus | src/components/UsersCRUD.tsx:192-197 | the list becomes the toggled list, in state and storage, and the form and dialog are untouched |
| AppointmentsCrud.FilteredAppointments | src/components/AppointmentsCRUD.tsx:32-37 | the table shows exactly the appointments that pass both the status filter and the case-insensitive search on name, email or service, each as often as stored, in stored order |
| AppointmentsCrud.ShowAllByDefault | src/components/AppointmentsCRUD.tsx:20-21 | with the initial filter `all` and an empty search, the whole list is shown |
| AppointmentsCrud.SearchIgnoresCase | src/components/AppointmentsCRUD.tsx:34-36 | the search gives the same answer for a term and its lower-cased form |
| AppointmentsCrud.WithStatus | src/components/AppointmentsCRUD.tsx:41-44 | a status change keeps length and order and changes only the status of the matching records |
| AppointmentsCrud.WithoutAppointment | src/components/AppointmentsCRUD.tsx:50-52 | a delete keeps exactly the other records, each as many times as before, in order |
| AppointmentsCrud.LastStatusWins | src/components/AppointmentsCRUD.tsx:41-47 | of two status changes to the same appointment, the second one wins |
| AppointmentsCrud.DeleteAfterStatusChange | src/components/AppointmentsCRUD.tsx:41-56 | a delete makes an earlier status change of the same appointment irrelevant |
| AppointmentsCrud.StatusText | src/components/AppointmentsCRUD.tsx:79-87 | each status has a badge text, a non-empty capitalised word |
| AppointmentsCrud.StatusColor | src/components/AppointmentsCRUD.tsx:68-76 | each status has a badge colour, written `#` and six hexadecimal digits |
| AppointmentsCrud.StatusBadgesDistinct | src/components/AppointmentsCRUD.tsx:68-87 | two statuses share a label, or a colour, if and only if they are the same status |
| AppointmentsCrud.AppointmentsPanel.constructor | src/components/AppointmentsCRUD.tsx:17-28 | the table starts with the stored list, filter `all` and an empty search |
| AppointmentsCrud.AppointmentsPanel.Shown | src/components/AppointmentsCRUD.tsx:32-37 | the rows on screen are exactly the stored appointments that the current filter and search let through |
| AppointmentsCrud.AppointmentsPanel.UpdateAppointmentStatus | src/components/AppointmentsCRUD.tsx:41-47 | state and storage both become the list with the new status; the filter and search are kept |
| AppointmentsCrud.AppointmentsPanel.DeleteAppointment | src/components/AppointmentsCRUD.tsx:50-56 | a confirmed delete removes the appointment in state and storage; an unconfirmed one changes nothing |
| Login.FindUser | src/components/Login.tsx:82-85 | `find` returns nothing exactly when no user matches, and otherwise the user at the first matching position |
| Login.ValidateCredentials | src/components/Login.tsx:68-93 | a missing or unparsable list signs nobody in; a returned user is in the list, has exactly that email and password, and is active; whenever such a user exists, one is returned |
| Login.FirstMatchWins | src/components/Login.tsx:82-88 | when several users match, the first in list order is returned |
| Login.CreatedActiveUserSignsIn | src/components/Login.tsx:68-93 | a user just created with the active flag set can sign in with the form's email and password |
| Login.ToggledOffCannotSignIn | src/components/Login.tsx:82-85 | after an active user is deactivated, no sign-in returns a user with that id |
| Login.LoginForm.constructor | src/components/Login.tsx:8-13 | the form starts empty, with no error and not loading |
| Login.LoginForm.HandleInputChange | src/components/Login.tsx:57-65 | typing stores the value in its field and clears the error |
| Login.LoginForm.HandleSubmit | src/components/Login.tsx:96-118 | the result is the credential check on the entered values; on success the session slot holds that user; on failure the session is untouched and the fixed message is shown; loading ends false |
| AppointmentsCalendar.AppointmentsForDate | src/components/AppointmentsCalendar.tsx:35-38 | exactly the appointments on that day, in stored order, as many as fall on it |
| AppointmentsCalendar.DatesOf | src/components/AppointmentsCalendar.tsx:43-45 | the date of each appointment, position by position |
| AppointmentsCalendar.DatesWithAppointments | src/components/AppointmentsCalendar.tsx:41-47 | the loop yields each day that has an appointment, exactly once, in order of first appearance |
| AppointmentsCalendar.TileClassName | src/components/AppointmentsCalendar.tsx:115-125 | a tile is marked `has-appointments` exactly in the month view on a day with at least one appointment |
| AppointmentsCalendar.TileContent | src/components/AppointmentsCalendar.tsx:91-112 | in the month view a day with appointments gets one dot per appointment, the i-th dot being the dot of the i-th appointment on that day in stored order; otherwise there is no content |
| AppointmentsCalendar.DotFor | src/components/AppointmentsCalendar.tsx:100-105 | a dot is coloured with its appointment's status colour (a hexadecimal colour) and its hover text is the name, ` - `, then the service |
| AppointmentsCalendar.DotColorsFollowStatus | src/components/AppointmentsCalendar.tsx:100-105 | two dots share a colour if and only if their appointments share a status |
| AppointmentsCalendar.MarkedIffDotted | src/components/AppointmentsCalendar.tsx:91-125 | a tile is marked exactly when it has dots |
| AppointmentsCalendar.CalendarView.constructor | src/components/AppointmentsCalendar.tsx:23-33 | the calendar starts with the stored list, today selected and nothing listed |
| AppointmentsCalendar.CalendarView.HandleDateChange | src/components/AppointmentsCalendar.tsx:50-57 | selecting a day lists that day's appointments and keeps the stored list |
| AppointmentService.Conflicts | src/services/appointmentService.ts:70-75 | the pre-check query returns exactly the pending or confirmed rows on that date and time, and it is empty exactly when no such row exists |
| AppointmentService.Book | src/services/appointmentService.ts:67-102 | a booking succeeds if and only if both store calls go through and no active row holds the slot; success appends one row carrying the supplied data and the key and appointment number the store assigns; a failure is reported as a taken slot if and only if the pre-check ran and saw an active row in the slot; any failure leaves the table unchanged |
| AppointmentService.OwnMessage | src/services/appointmentService.ts:82-84 | the service raises a message of its own only for a taken slot; store failures pass the store's error on |
| AppointmentService.BookingKeepsSlotsSingle | src/services/appointmentService.ts:69-84 | a booking never puts two active appointments in one slot |
| AppointmentService.FreedSlotsDoNotBlock | src/services/appointmentService.ts:75 | completed and cancelled appointments do not block a booking of their slot |
| AppointmentService.SecondBookingOfSlotFails | src/services/appointmentService.ts:69-84 | booking an active slot twice in a row: the second call fails as taken and the slot keeps exactly one active appointment |
| AppointmentService.SlotsOn | src/services/appointmentService.ts:212-230 | the per-date lookup lists the time and status of every active row on that day, and only of such rows |
| AppointmentService.BookedSlotIsReported | src/services/appointmentService.ts:67-102 | after a successful active booking, the per-date lookup reports its slot |
| AppointmentService.WithStatus | src/services/appointmentService.ts:129-135 | a status update changes only the status and update instant of the row with that id |
| AppointmentService.StatusUpdateKeepsKey | src/services/appointmentService.ts:129-135 | a status update keeps ids distinct |
| AppointmentService.StatusUpdateFindsRow | src/services/appointmentService.ts:129-137 | after a status update the same ids exist, and the row with the updated id carries the new status and update instant |
| AppointmentService.StatusUpdateOfMissingId | src/services/appointmentService.ts:129-135 | a status update of an id no row has leaves the table unchanged |
| AppointmentService.WithoutAppointment | src/services/appointmentService.ts:154-157 | a delete keeps exactly the other rows, each as many times as before, in order, and ids stay distinct |
| AppointmentService.SingleRowById | src/services/appointmentService.ts:135-137 | since ids are unique, a single-row query by id matches at most one row, and exactly one when the id exists |
| AppointmentService.ReactivationCanDoubleBook | src/services/appointmentService.ts:127-149 | a status update does not re-run the slot check, so reactivating a cancelled appointment can put two active appointments in one slot |
| AppointmentService.AppointmentTable.constructor | src/services/appointmentService.ts:3-18 | the table starts from a list of rows with distinct ids |
| AppointmentService.AppointmentTable.CreateAppointment | src/services/appointmentService.ts:67-102 | the outcome and the new table are the booking's, and ids stay distinct |
| AppointmentService.AppointmentTable.UpdateAppointmentStatus | src/services/appointmentService.ts:127-149 | the update succeeds exactly when the store is reached and the id exists, and returns the updated row; without that id it fails and changes nothing |
| AppointmentService.AppointmentTable.DeleteAppointment | src/services/appointmentService.ts:152-167 | a delete removes the row with that id and fails only when the store cannot be reached |
| AppointmentService.AppointmentTable.GetAppointmentById | src/services/appointmentService.ts:170-188 | the row with that id is returned; nothing is returned exactly when the store cannot be reached or no row has that id |
| AppointmentService.AppointmentTable.GetAppointmentsByDate | src/services/appointmentService.ts:212-230 | the active slots of that day, or an error exactly when the store cannot be reached |
| AppointmentService.AppointmentTable.GetAppointmentsByStatus | src/services/appointmentService.ts:46-64 | exactly the rows with that status, each as often as stored, newest first |
| AppointmentService.AppointmentTable.GetAppointments | src/services/appointmentService.ts:26-43 | every row, newest first |

## Left out

- Seeding the sample users and reading lists from browser storage with `JSON.parse` are not modelled. A panel starts from the list it is given. For sign-in, the storage read is the three-way input `Login.StoredUsers` (missing, unparsable, parsed).
- Conversion of `Date` values to day keys (`toISOString().split('T')[0]`) is not modelled. This includes the UTC shift of that conversion, and `formatDate`. Days are opaque `YYYY-MM-DD` strings.
- The one-second delay in sign-in, and the `onLogin` and `onDateSelect` callbacks, are not modelled. `HandleSubmit` returns the user it would pass to `onLogin`.
- `Text.ToLower` lower-cases ASCII and Latin-1 capitals only. The rest of Unicode's case mapping is not modelled.
- The `default` branches of `getStatusColor` and `getStatusText` are not modelled. Statuses are a closed datatype here, so those branches cannot be reached.
- The appointment detail dialog and the filter and search inputs of the appointments table are rendering only. They are reduced to the `filter` and `searchTerm` fields.
- `updateAppointment` and `searchAppointments` in the appointment service are not modelled. Neither is part of the modelled core.
- The pre-check and the insert of a booking are two separate store calls. Two concurrent bookings can both pass the pre-check. The model runs each call to completion, so that race is not captured.
- Store errors carry no message text. `ServiceError.StoreError` stands for all of them, and a failed store call is the `fault` parameter.
- AppointmentService.AppointmentTable.CreateAppointment: requires that the key the store assigns to the new row is not already in the table. The store guarantees this with a generated primary key.
- AppointmentService.AppointmentTable.UpdateAppointmentStatus: relies on ids being unique, which is the table's primary key. It does not model an update that matches several rows.
- AppointmentService.AppointmentTable.GetAppointmentById: relies on ids being unique, which is the table's primary key. It does not model a query that matches several rows.
- `created_at` is a natural-number instant in `AppointmentService`, so that the newest-first order can be stated. Timestamp strings and their formatting are not modelled.
- The user service, the public booking dialog, the e-mail confirmation, route protection and the layout components are not part of this model.
