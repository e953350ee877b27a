# Timotheus calendar events: a Dafny model

This project models the core of the Timotheus calendar manager. It has two parts:

- **`Event`** (`Schedule/Event.cs`): the calendar record the application keeps, later syncs with a remote calendar and exports.
  - The `Name` and `Location` setters delete every CR LF pair in one left-to-right pass of `String.Replace("\r\n", "")`.
  - All three text setters stamp `Changed` with the current time.
  - The constructor fixes `Changed` to `Created` and clears the `Deleted` tombstone.
  - `GenerateUID` formats 16 random bytes as 8-4-4-4-12 upper-case hex.
  - `Update` copies another event's content, but only when the identifiers agree.
  - `Equals` compares values and ignores `Changed` and `Deleted`.
- **The event list of the main window** (`Forms/Manager.cs`): the full list `events`, the rows `shownEvents` for the selected `year`, and four operations on them.
  - Adding an event appends it to `events`.
  - The year buttons step `year` up or down.
  - `UpdateTable` refills the rows with the events of that year that are not tombstoned.
  - The Remove button soft-deletes an entry. It searches for the last entry equal by value to the selected row and sets its `Deleted` flag. When no entry matches, it marks the first entry. It never takes an entry out of the list.

The clock (`DateTime.Now`) and the random source (`System.Random`) become parameters: `now` and `random`. The grid's selected row becomes the `row` parameter.

Modules:
- `Wrappers`: an `Option` type.
- `Strings`: the .NET primitives the record uses.
  - `RemoveAll` is `String.Replace(pat, "")`.
  - `BitConverterToString` is `BitConverter.ToString`.
  - `Grouped` is the five `Substring` groups.
  - `IsUidShape` and `ParseUid` describe the identifier layout and read an identifier back.
- `Schedule`: `DateTime` and the `Event` class.
- `Forms`: the `MainWindow` class, with the row filter `IsShown`, the spec functions `Visible` and `LastEqual`, and `TombstoneIndex`, the index the Remove button marks. The two loops are the methods `FilterShown` and `FindLastEqual`, which only read.

Facts about the code that the model keeps:
- The `Name` and `Location` setters delete only CR LF pairs, and only in one pass. A stored value can still hold a line break: a lone `\n` survives, and `"\r\r\n\n"` becomes `"\r\n"` (`Strings.OnePassCanLeaveCrlf`).
- No invariant orders `Changed` and `Created`. `Update` copies `Created` from the other event and sets `Changed` to the current time.
- The identifier sets no UUID version or variant bits. The model states only the 8-4-4-4-12 layout and that the 16 bytes can be read back.
- `Equals` ignores `Deleted`. The Remove search can therefore land on a later value-equal copy that is already tombstoned, and the selected row then stays listed (`Forms.RemoveCanMarkTombstonedCopy`).

## Model

| member | source | states |
|---|---|---|
| `Strings.RemoveAll` | Schedule/Event.cs:16 | One left-to-right `Replace(pat, "")` pass. The result is never longer than the input. When it is as long, it is the input itself. |
| `Strings.RemoveAllAbsent` | Schedule/Event.cs:16 | A string containing no occurrence of the pattern is returned unchanged. |
| `Strings.RemoveAllKeepsOtherCharacters` | Schedule/Event.cs:16-18 | Only pattern characters are deleted. Every other character of the input survives, in order. |
| `Strings.OnePassCanLeaveCrlf` | Schedule/Event.cs:16 | One pass does not clear CR LF: `"\r\r\n\n"` becomes `"\r\n"`, which still contains CR LF. |
| `Strings.HexDigit` | Schedule/Event.cs:48 | A nibble below 16 is written as one upper-case hex digit, as `BitConverter` writes it. |
| `Strings.ByteHex` | Schedule/Event.cs:48 | One byte is written as two upper-case hex digits, high nibble first. |
| `Strings.BitConverterToString` | Schedule/Event.cs:48 | `BitConverter.ToString` gives "" for no bytes, and otherwise 3n - 1 characters. A '-' stands exactly at the positions 3k + 2. Every other position holds the matching digit of byte k's pair. |
| `Strings.HexValue` | Schedule/Event.cs:48 | Reading an upper-case hex digit gives a nibble that `HexDigit` writes back as the same digit. |
| `Strings.HexOf` | Schedule/Event.cs:48 | The digit string of n bytes has 2n characters, all upper-case hex. |
| `Strings.HexDecode` | Schedule/Event.cs:48 | Reading 2n hex digits gives n bytes. |
| `Strings.HexRoundTrip` | Schedule/Event.cs:47-48 | Reading back the hex text of any byte sequence gives that sequence. |
| `Strings.StripDashes` | Schedule/Event.cs:48 | `BitConverter.ToString(data).Replace("-", "")` is the bytes' digit pairs back to back, high nibble first. |
| `Strings.UidDigits` | Schedule/Event.cs:49 | Taking the four separators out of a 36-character identifier leaves 32 digits. |
| `Strings.ParseUid` | Schedule/Event.cs:49 | Reading an identifier back succeeds exactly on the 8-4-4-4-12 upper-case hex layout, and then gives 16 bytes. |
| `Strings.Grouped` | Schedule/Event.cs:49 | The five `Substring` groups (0, 8), (8, 4), (12, 4), (16, 4) and (20, 12), joined by '-', give 36 characters. The separators stand at 8, 13, 18 and 23, and removing them gives back the 32 input characters. |
| `Strings.GroupedRoundTrip` | Schedule/Event.cs:49 | Regrouping 32 hex digits with the five `Substring` calls gives the 8-4-4-4-12 layout. Its digits, read in order, are the original 32. |
| `Schedule.Event.SetName` | Schedule/Event.cs:16 | `Name` becomes the value with its CR LF pairs removed. `Changed` becomes the current time. No other field changes. |
| `Schedule.Event.SetDescription` | Schedule/Event.cs:17 | `Description` becomes the value verbatim. `Changed` becomes the current time. No other field changes. |
| `Schedule.Event.SetLocation` | Schedule/Event.cs:18 | `Location` becomes the value with its CR LF pairs removed. `Changed` becomes the current time. No other field changes. |
| `Schedule.Event.constructor` | Schedule/Event.cs:23-37 | Start, end, creation time and description are the arguments. Name and location are the arguments with CR LF removed. `Changed` equals `Created`, overwriting the setters' stamps. `Deleted` is false. `UID` is the given identifier, or one generated from the random bytes. |
| `Schedule.Event.GenerateUID` | Schedule/Event.cs:43-51 | Always 36 characters, with '-' at 8, 13, 18 and 23 and upper-case hex elsewhere. The 32 digits are the bytes' two-digit encodings in order. Parsing the identifier gives back the 16 bytes. |
| `Schedule.GenerateUIDInjective` | Schedule/Event.cs:43-51 | Distinct byte arrays give distinct identifiers. |
| `Schedule.Event.Equals` | Schedule/Event.cs:68-77 | True exactly when the argument is non-null and agrees on start, end, creation time, name, description, location and UID. `Changed` and `Deleted` are not compared. |
| `Schedule.EqualsReflexive` | Schedule/Event.cs:74 | Every event equals itself. |
| `Schedule.EqualsSymmetric` | Schedule/Event.cs:74 | The comparison does not depend on argument order. |
| `Schedule.EqualsTransitive` | Schedule/Event.cs:74 | Two events equal to a third are equal to each other. |
| `Schedule.Event.Update` | Schedule/Event.cs:54-65 | With a different UID, nothing changes. With the same UID: start, end, creation time and description are copied exactly, and name and location go through the stripping setters. `Changed` becomes the current time, not the other's. `UID` and `Deleted` keep their values. If the other's name and location contain no CR LF, the receiver then `Equals` the other. |
| `Forms.Visible` | Forms/Manager.cs:60-67 | The rows for a year are at most as many as the entries. Each row is an entry that passes the row filter `IsShown` of line 65: it starts in that year and is not tombstoned. |
| `Forms.VisibleMembership` | Forms/Manager.cs:65-66 | An event is listed exactly when it is in the list, starts in the year and is not tombstoned. |
| `Forms.VisibleAppend` | Forms/Manager.cs:63-66 | Filtering a concatenation concatenates the filtered parts, so the rows keep the list's order. |
| `Forms.LastEqual` | Forms/Manager.cs:84-89 | When it finds an index, the entry there equals the selected event and no later entry does. When it finds none, no entry equals the selected event. |
| `Forms.LastEqualFindsMember` | Forms/Manager.cs:83-89 | A selected event that is itself in the list always finds a match, because `Equals` is reflexive. |
| `Forms.RemoveCanMarkTombstonedCopy` | Forms/Manager.cs:84-90 | Take `[a, b]` with `a` equal to `b` and `b` already deleted. Selecting `a` marks index 1 again, and `a` stays among the year's rows. |
| `Forms.TombstoneIndex` | Forms/Manager.cs:84-90 | The index `Remove_Click` marks. When some entry equals the selected event, it is the last such entry. When none does, it is 0. |
| `Forms.FilterShown` | Forms/Manager.cs:62-67 | The refill loop, which tests each entry with `IsShown`, yields exactly the year's non-tombstoned entries, in list order. |
| `Forms.FindLastEqual` | Forms/Manager.cs:84-89 | The search loop yields the last index whose entry equals the selected event, or 0 when none does. |
| `Forms.MainWindow.constructor` | Forms/Manager.cs:23-40 | The list is the loaded events, the year is the current year, and the rows are that year's non-tombstoned events. |
| `Forms.MainWindow.AddEventToCalendar` | Forms/Manager.cs:42-46 | The event is appended at the end, every earlier entry stays in place, and the rows are refilled. |
| `Forms.MainWindow.UpdateYear` | Forms/Manager.cs:49-58 | Text "+" gives year + 1, text "-" gives year - 1, and any other text keeps the year. The rows are refilled for the new year. |
| `Forms.MainWindow.UpdateTable` | Forms/Manager.cs:60-69 | The rows become exactly the list's entries for the year that are not tombstoned, in list order. Every row is an entry of the list. |
| `Forms.MainWindow.RemoveClick` | Forms/Manager.cs:79-93 | With no rows, nothing changes. Otherwise the last entry equal to the selected row is marked deleted, or the first entry when none is equal. No other entry's flag changes, and the list keeps its length, order and contents. The rows are refilled and no longer contain the marked entry. When the rows came from the list, a match always exists. |

## Left out

- The window's start-up file access is not modelled. It reads `Data.txt` from the desktop, builds the remote `Calendar` and calls `GetEvents`. The constructor takes the loaded events and the current year instead.
- `SyncCalendar`, `SaveButton_Click` and `OpenButton_Click` are not modelled. They delegate to `Calendar.Sync`, `Calendar.GetEvents` and `Calendar.GetCalendarICS`, and the `Calendar` class is not part of this model. Merging and the iCalendar text format are therefore not modelled either.
- `CalendarView.Sort` and `SortableBindingList` are not part of this model. The modelled rows are in list order; after the grid's sort they hold the same events in some other order.
- The remaining UI handlers carry no list logic and are not modelled: `Add_Click`, the dialogs, `ProcessDialogKey`, the link handlers that start `cmd`, the tray icon handlers, `ExportButton_Click` and the empty `ExportPDF`. The same holds for the `Year.Text` label update.
- The six-argument `Event` constructor only supplies `DateTime.Now` as the creation time. With the clock as a parameter, it is the modelled constructor with `created` equal to `now`.
- The five- and four-argument `Event` constructors pass a null `Location` into a setter that calls `Replace` on it. They fault rather than build an event, so they are not modelled.
- `GetHashCode` returns the reference hash, which is inconsistent with `Equals`. It has no contract worth stating.
- Null strings are not modelled. All text fields are non-null strings. In the source, a null `Name` or `Location` faults in its setter. A null `Description` faults in `Equals` only on the receiver, and only when start, end, creation time and name already match, because the `&&` chain at Schedule/Event.cs:74 short-circuits. A null `Description` on the argument gives false.
- Schedule.Event.Update: takes a non-null `Event`. `Update(null)` faults at `ev.UID` in the source; that fault is not modelled.
- Forms.MainWindow.AddEventToCalendar: takes a non-null `Event`. In the source, `AddEventToCalendar(null)` appends the null and then throws from its own `UpdateTable()` call (Forms/Manager.cs:45), at `events[i].StartTime`. Every later `UpdateTable` throws the same way. None of these faults is modelled.
- Forms.MainWindow.RemoveClick: the precondition excludes two faults of the source. First, with no current cell, `CalendarView.CurrentCell.OwningRow` throws `NullReferenceException`; the selected row is a parameter within the rows instead. Second, when the rows are stale and the list has been emptied (for instance by `Calendar.GetEvents` after a sync without a refill), `events[0]` throws `ArgumentOutOfRangeException`; the model requires a non-empty list whenever rows are listed.
- `Schedule.Event.Equals` takes an `Event?` argument. For an argument of another type the source returns false; that case is not modelled.
- `DateTime` is a record of year, month, day and time of day. Structural equality stands for tick equality, calendar validity is not checked, and `DateTimeKind` is ignored.
- `Schedule.Event.GenerateUID` takes its 16 bytes as a parameter. The statistical uniqueness of `System.Random` output and conformance to the UUID version and variant bits are not claimed.
- `Forms.MainWindow.UpdateYear` treats the year as an unbounded integer. It does not model 32-bit wrap-around of `year++` at `Int32.MaxValue`, which needs about two billion clicks.
- Concurrency and the UI thread are not modelled. Each operation runs to completion on its own.
